// Rewriting the PKCS#7 parts of a message to DER in place of their bodies (src/modify_cms.rs:180-217).
module Splicing {
  import opened Octets
  import opened Arrangements
  import ContentRepair
  import CmsTree

  const CR: byte := ContentRepair.CR
  const CRLF: Bytes := ContentRepair.CRLF
  const LINE: nat := 76

  // ---------- Base64 (RFC 4648, section 4) ----------

  const PAD: byte := 0x3D

  function Symbol(k: nat): (c: byte)
    requires k < 64
    ensures c != CR && c != 0x0A && c != PAD
  {
    if k < 26 then (65 + k) as byte
    else if k < 52 then (71 + k) as byte
    else if k < 62 then (k - 4) as byte
    else if k == 62 then 43
    else 47
  }

  function SymbolValue(c: byte): Option<nat> {
    if 65 <= c <= 90 then Some(c as int - 65)
    else if 97 <= c <= 122 then Some(c as int - 71)
    else if 48 <= c <= 57 then Some(c as int + 4)
    else if c == 43 then Some(62)
    else if c == 47 then Some(63)
    else None
  }

  lemma SymbolReads(k: nat)
    requires k < 64
    ensures SymbolValue(Symbol(k)) == Some(k)
  {
  }

  function Group(a: nat, b: nat, c: nat): (g: Bytes)
    requires a < 0x100 && b < 0x100 && c < 0x100
    ensures |g| == 4
  {
    [Symbol(a / 4), Symbol(a % 4 * 16 + b / 16), Symbol(b % 16 * 4 + c / 64), Symbol(c % 64)]
  }

  function Encode(s: Bytes): Bytes {
    if |s| == 0 then []
    else if |s| == 1 then Group(s[0] as int, 0, 0)[..2] + [PAD, PAD]
    else if |s| == 2 then Group(s[0] as int, s[1] as int, 0)[..3] + [PAD]
    else Group(s[0] as int, s[1] as int, s[2] as int) + Encode(s[3..])
  }

  /** Four symbol values back to three octets. */
  function Octet1(p: nat, q: nat): byte requires p < 64 && q < 64 { (p * 4 + q / 16) as byte }
  function Octet2(q: nat, r: nat): byte requires q < 64 && r < 64 { (q % 16 * 16 + r / 4) as byte }
  function Octet3(r: nat, t: nat): byte requires r < 64 && t < 64 { (r % 4 * 64 + t) as byte }

  function ValueOf(c: byte): nat
    ensures ValueOf(c) < 64
  {
    var v := SymbolValue(c);
    if v.Some? then v.value else 0
  }

  /** Decodes padded base64; symbols outside the alphabet or misplaced padding give None. */
  function Decode(t: Bytes): Option<Bytes> {
    if |t| == 0 then Some([])
    else if |t| < 4 || SymbolValue(t[0]).None? || SymbolValue(t[1]).None? then None
    else
      var first := Octet1(ValueOf(t[0]), ValueOf(t[1]));
      if |t| == 4 && t[2] == PAD && t[3] == PAD then Some([first])
      else if SymbolValue(t[2]).None? then None
      else
        var second := Octet2(ValueOf(t[1]), ValueOf(t[2]));
        if |t| == 4 && t[3] == PAD then Some([first, second])
        else if SymbolValue(t[3]).None? then None
        else match Decode(t[4..])
          case None => None
          case Some(rest) => Some([first, second, Octet3(ValueOf(t[2]), ValueOf(t[3]))] + rest)
  }

  lemma GroupReads(a: nat, b: nat, c: nat)
    requires a < 0x100 && b < 0x100 && c < 0x100
    ensures var g := Group(a, b, c);
      && (forall i :: 0 <= i < 4 ==> g[i] != PAD && SymbolValue(g[i]).Some?)
      && Octet1(ValueOf(g[0]), ValueOf(g[1])) as int == a
      && Octet2(ValueOf(g[1]), ValueOf(g[2])) as int == b
      && Octet3(ValueOf(g[2]), ValueOf(g[3])) as int == c
  {
    SymbolReads(a / 4);
    SymbolReads(a % 4 * 16 + b / 16);
    SymbolReads(b % 16 * 4 + c / 64);
    SymbolReads(c % 64);
  }

  lemma {:induction false} DecodeEncode(s: Bytes)
    ensures Decode(Encode(s)) == Some(s)
  {
    hide Group, Octet1, Octet2, Octet3, SymbolValue, ValueOf;
    if |s| == 1 {
      GroupReads(s[0] as int, 0, 0);
      assert s == [s[0]];
    } else if |s| == 2 {
      GroupReads(s[0] as int, s[1] as int, 0);
      assert s == [s[0], s[1]];
    } else if |s| > 2 {
      GroupReads(s[0] as int, s[1] as int, s[2] as int);
      var g := Group(s[0] as int, s[1] as int, s[2] as int);
      assert (g + Encode(s[3..]))[4..] == Encode(s[3..]);
      DecodeEncode(s[3..]);
      assert s == [s[0], s[1], s[2]] + s[3..];
    }
  }

  predicate IsBreak(c: byte) { c == CR || c == 0x0A }

  predicate Unbroken(s: Bytes) { forall i :: 0 <= i < |s| ==> !IsBreak(s[i]) }

  lemma {:induction false} EncodeUnbroken(s: Bytes)
    ensures Unbroken(Encode(s))
  {
    if |s| > 2 {
      EncodeUnbroken(s[3..]);
    }
  }

  // ---------- Line wrapping ----------

  function Min(a: nat, b: nat): nat { if a < b then a else b }

  /** Lines of 76 octets, each but the first with CRLF in front. */
  function WrapFrom(s: Bytes, i: nat): Bytes
    requires i <= |s|
    decreases |s| - i
  {
    if i == |s| then []
    else
      var end := Min(i + LINE, |s|);
      (if i > 0 then CRLF else []) + s[i..end] + WrapFrom(s, end)
  }

  function Wrapped(s: Bytes): Bytes { WrapFrom(s, 0) + CRLF }

  method WrapBase64(s: Bytes) returns (wrapped: Bytes)
    ensures wrapped == Wrapped(s)
  {
    wrapped := [];
    var i := 0;
    while i < |s|
      invariant 0 <= i <= |s|
      invariant wrapped + WrapFrom(s, i) == WrapFrom(s, 0)
    {
      var end := Min(i + LINE, |s|);
      ghost var before := wrapped;
      if i > 0 {
        wrapped := wrapped + CRLF;
      }
      wrapped := wrapped + s[i..end];
      assert wrapped + WrapFrom(s, end) == before + WrapFrom(s, i);
      i := end;
    }
    assert wrapped + [] == wrapped;
    wrapped := wrapped + CRLF;
  }

  function Strip(s: Bytes): Bytes {
    if s == [] then []
    else if s[0] == CR || s[0] == 0x0A then Strip(s[1..])
    else [s[0]] + Strip(s[1..])
  }

  lemma {:induction false} StripAppend(a: Bytes, b: Bytes)
    ensures Strip(a + b) == Strip(a) + Strip(b)
  {
    if a == [] {
      assert a + b == b;
    } else {
      assert (a + b)[1..] == a[1..] + b;
      StripAppend(a[1..], b);
    }
  }

  lemma {:induction false} StripUnbroken(s: Bytes)
    requires Unbroken(s)
    ensures Strip(s) == s
  {
    if s != [] {
      StripUnbroken(s[1..]);
    }
  }

  lemma StripCrlf()
    ensures Strip(CRLF) == [] == Strip([])
  {
    assert CRLF[1..] == [0x0A] && [0x0A as byte][1..] == [];
  }

  lemma {:induction false} StripWrapFrom(s: Bytes, i: nat)
    requires Unbroken(s) && i <= |s|
    ensures Strip(WrapFrom(s, i)) == s[i..]
    decreases |s| - i
  {
    hide *;
    StripCrlf();
    if i == |s| {
      WrapNothing(s);
    } else {
      WrapLine(s, i);
      var end := Min(i + LINE, |s|);
      var gap, line, rest := if i > 0 then CRLF else [], s[i..end], WrapFrom(s, end);
      UnbrokenPart(s, i, end);
      StripUnbroken(line);
      StripWrapFrom(s, end);
      StripAppend(line, rest);
      StripAppend(gap, line + rest);
      assert line + s[end..] == s[i..];
    }
  }

  lemma {:induction false} WrapNothing(s: Bytes)
    ensures Strip(WrapFrom(s, |s|)) == [] == s[|s|..]
  {
  }

  lemma WrapLine(s: Bytes, i: nat)
    requires i < |s|
    ensures var end := Min(i + LINE, |s|);
      && i < end <= |s|
      && WrapFrom(s, i) == (if i > 0 then CRLF else []) + (s[i..end] + WrapFrom(s, end))
  {
    var end := Min(i + LINE, |s|);
    assert CRLF + s[i..end] + WrapFrom(s, end) == CRLF + (s[i..end] + WrapFrom(s, end));
    assert [] + s[i..end] + WrapFrom(s, end) == [] + (s[i..end] + WrapFrom(s, end));
  }

  /** How long the line is that `s` starts with. */
  function FirstLine(s: Bytes): nat {
    if s == [] || IsBreak(s[0]) then 0 else 1 + FirstLine(s[1..])
  }

  ghost predicate LinesFit(s: Bytes) {
    forall j :: 0 <= j <= |s| ==> FirstLine(s[j..]) <= 76
  }

  lemma {:induction false} FirstLineOf(a: Bytes, b: Bytes)
    requires Unbroken(a) && (b == [] || IsBreak(b[0]))
    ensures FirstLine(a + b) == |a|
  {
    if a == [] {
      assert a + b == b;
    } else {
      assert (a + b)[1..] == a[1..] + b;
      FirstLineOf(a[1..], b);
    }
  }

  lemma LineInFront(a: Bytes, b: Bytes)
    requires Unbroken(a) && |a| <= 76 && (b == [] || IsBreak(b[0])) && LinesFit(b)
    ensures LinesFit(a + b)
  {
    forall j | 0 <= j <= |a + b| ensures FirstLine((a + b)[j..]) <= 76 {
      if j <= |a| {
        assert (a + b)[j..] == a[j..] + b;
        FirstLineOf(a[j..], b);
      } else {
        assert (a + b)[j..] == b[j - |a|..];
      }
    }
  }

  lemma BreakInFront(b: Bytes)
    requires LinesFit(b)
    ensures LinesFit(CRLF + b)
  {
    forall j | 0 <= j <= |CRLF + b| ensures FirstLine((CRLF + b)[j..]) <= 76 {
      if j == 1 {
        assert (CRLF + b)[1..] == [0x0A] + b;
      } else if j >= 2 {
        assert (CRLF + b)[j..] == b[j - 2..];
      }
    }
  }

  lemma {:induction false} WrapFromFits(s: Bytes, i: nat)
    requires Unbroken(s) && i <= |s|
    ensures LinesFit(WrapFrom(s, i) + CRLF) && (i > 0 ==> IsBreak((WrapFrom(s, i) + CRLF)[0]))
    decreases |s| - i
  {
    hide *;
    if i == |s| {
      WrapFromEnd(s);
      NoLine();
      BreakInFront([]);
      assert CRLF + [] == CRLF;
    } else {
      var end := Min(i + LINE, |s|);
      WrapFromStep(s, i);
      var rest := WrapFrom(s, end) + CRLF;
      WrapFromFits(s, end);
      UnbrokenPart(s, i, end);
      LineInFront(s[i..end], rest);
      BreakInFront(s[i..end] + rest);
    }
  }

  lemma {:induction false} WrapFromEnd(s: Bytes)
    ensures WrapFrom(s, |s|) + CRLF == CRLF && IsBreak(CRLF[0])
  {
  }

  lemma WrapFromStep(s: Bytes, i: nat)
    requires i < |s|
    ensures var end := Min(i + LINE, |s|);
      var line := s[i..end] + (WrapFrom(s, end) + CRLF);
      && i < end <= |s| && end <= i + 76
      && WrapFrom(s, i) + CRLF == (if i > 0 then CRLF + line else line)
      && IsBreak((CRLF + line)[0])
  {
    var end := Min(i + LINE, |s|);
    assert CRLF + s[i..end] + WrapFrom(s, end) + CRLF == CRLF + (s[i..end] + (WrapFrom(s, end) + CRLF));
    assert [] + s[i..end] + WrapFrom(s, end) + CRLF == s[i..end] + (WrapFrom(s, end) + CRLF);
  }

  lemma UnbrokenPart(s: Bytes, i: nat, j: nat)
    requires Unbroken(s) && i <= j <= |s|
    ensures Unbroken(s[i..j])
  {
  }

  lemma NoLine()
    ensures LinesFit([])
  {
  }

  /** Wrapping only inserts line breaks, and no line is longer than 76 octets. */
  lemma WrappedReadsBack(s: Bytes)
    requires Unbroken(s)
    ensures Strip(Wrapped(s)) == s
    ensures LinesFit(Wrapped(s)) && |Wrapped(s)| >= 2 && Wrapped(s)[|Wrapped(s)| - 2..] == CRLF
  {
    hide LinesFit, WrapFrom;
    StripWrapFrom(s, 0);
    StripAppend(WrapFrom(s, 0), CRLF);
    StripCrlf();
    assert s[0..] + [] == s;
    WrapFromFits(s, 0);
  }

  // ---------- Parts and their new bodies ----------

  /** A PKCS#7 part: where its body lies in the message, and its decoded contents. */
  datatype Part = Part(start: nat, end: nat, contents: Bytes)

  datatype SpliceError = NoParts | NotConverted

  /** The body written for a part: the DER form of its contents as wrapped base64. */
  function Body(p: Part): Option<Bytes> {
    match CmsTree.BerToDerCms(p.contents)
    case None => None
    case Some(der) => Some(Wrapped(Encode(der)))
  }

  predicate Convertible(parts: seq<Part>) { forall p :: p in parts ==> Body(p).Some? }

  /** A new body reads back as the DER form of the part. */
  lemma BodyReadsBack(p: Part)
    requires Body(p).Some?
    ensures Decode(Strip(Body(p).value)) == CmsTree.BerToDerCms(p.contents) && LinesFit(Body(p).value)
  {
    hide LinesFit, Wrapped;
    var der := CmsTree.BerToDerCms(p.contents).value;
    EncodeUnbroken(der);
    WrappedReadsBack(Encode(der));
    DecodeEncode(der);
  }

  // ---------- Sorting the parts ----------

  predicate Inside(n: nat, parts: seq<Part>) { forall p :: p in parts ==> p.start <= p.end <= n }

  predicate Before(p: Part, q: Part) { p.end <= q.start && p.start < q.start }

  /** Bodies do not overlap and start at different places. */
  ghost predicate Apart(parts: seq<Part>) {
    && (forall p :: p in parts ==> multiset(parts)[p] == 1)
    && (forall p, q :: p in parts && q in parts && p != q ==> Before(p, q) || Before(q, p))
  }

  function InsertDescending(p: Part, parts: seq<Part>): seq<Part> {
    if parts == [] || parts[0].start <= p.start then [p] + parts
    else [parts[0]] + InsertDescending(p, parts[1..])
  }

  /** The stable sort of the parts by descending offset. */
  function SortDescending(parts: seq<Part>): seq<Part> {
    if parts == [] then [] else InsertDescending(parts[0], SortDescending(parts[1..]))
  }

  /** Rear parts come first, and a part ends before the one behind it starts. */
  predicate Descending(n: nat, parts: seq<Part>) {
    parts == [] || (parts[0].start <= parts[0].end <= n && Descending(parts[0].start, parts[1..]))
  }

  lemma {:induction false} InsertDescends(p: Part, parts: seq<Part>, n: nat)
    requires Descending(n, parts) && p.start <= p.end <= n
    requires forall q :: q in parts ==> Before(p, q) || Before(q, p)
    ensures Descending(n, InsertDescending(p, parts))
    ensures multiset(InsertDescending(p, parts)) == multiset{p} + multiset(parts)
  {
    if parts == [] || parts[0].start <= p.start {
      assert ([p] + parts)[1..] == parts;
      if parts != [] {
        HeadOrTail(parts);
      }
    } else {
      HeadOrTail(parts);
      var rest := InsertDescending(p, parts[1..]);
      InsertDescends(p, parts[1..], parts[0].start);
      MultisetOfTail(parts);
      assert ([parts[0]] + rest)[1..] == rest;
    }
  }

  lemma ApartTail(parts: seq<Part>)
    requires Apart(parts) && parts != []
    ensures Apart(parts[1..])
    ensures forall q :: q in parts[1..] ==> Before(parts[0], q) || Before(q, parts[0])
  {
    MultisetOfTail(parts);
    HeadOrTail(parts);
    assert multiset(parts)[parts[0]] == 1;
    assert forall q :: q in parts[1..] ==> q in multiset(parts[1..]);
  }

  lemma {:induction false} SortDescends(parts: seq<Part>, n: nat)
    requires Inside(n, parts) && Apart(parts)
    ensures Descending(n, SortDescending(parts)) && multiset(SortDescending(parts)) == multiset(parts)
  {
    if parts != [] {
      hide Apart, Before, Descending;
      ApartTail(parts);
      HeadOrTail(parts);
      SortDescends(parts[1..], n);
      var rest := SortDescending(parts[1..]);
      assert forall q :: q in rest ==> q in multiset(rest);
      assert forall q :: q in multiset(parts[1..]) ==> q in parts[1..];
      InsertDescends(parts[0], rest, n);
      MultisetOfTail(parts);
    }
  }

  // ---------- The reverse-order splice ----------

  /** The parts follow one another from `at` on. */
  predicate Ahead(n: nat, ascending: seq<Part>, at: nat)
    decreases |ascending|
  {
    if ascending == [] then at <= n
    else at <= ascending[0].start <= ascending[0].end && Ahead(n, ascending[1..], ascending[0].end)
  }

  lemma {:induction false} AheadInside(n: nat, ascending: seq<Part>, at: nat)
    requires Ahead(n, ascending, at)
    ensures at <= n
    ensures forall p :: p in ascending ==> at <= p.start <= p.end <= n
    decreases |ascending|
  {
    if ascending != [] {
      HeadOrTail(ascending);
      AheadInside(n, ascending[1..], ascending[0].end);
    }
  }

  function BodyOf(p: Part): Bytes { if Body(p).Some? then Body(p).value else [] }

  /** All bodies replaced at once: what lies between the parts is kept in order, each range holds its new body. */
  function Rewritten(message: Bytes, ascending: seq<Part>, at: nat): Bytes
    requires Ahead(|message|, ascending, at)
    decreases |ascending|
  {
    AheadInside(|message|, ascending, at);
    if ascending == [] then message[at..]
    else
      var p := ascending[0];
      assert p in ascending;
      message[at..p.start] + BodyOf(p) + Rewritten(message, ascending[1..], p.end)
  }

  lemma {:induction false} RewrittenStep(message: Bytes, ascending: seq<Part>, at: nat)
    requires Ahead(|message|, ascending, at) && ascending != []
    ensures var p := ascending[0];
      && at <= p.start <= p.end <= |message| && Ahead(|message|, ascending[1..], p.end)
      && Rewritten(message, ascending, at) == message[at..p.start] + (BodyOf(p) + Rewritten(message, ascending[1..], p.end))
  {
    hide BodyOf;
    AheadInside(|message|, ascending, at);
    assert ascending[0] in ascending;
  }

  lemma {:induction false} AheadFrom(n: nat, ascending: seq<Part>, from: nat, at: nat)
    requires Ahead(n, ascending, at) && from <= at
    ensures Ahead(n, ascending, from) && at <= n
  {
    AheadInside(n, ascending, at);
  }

  lemma {:induction false} KeepsGap(message: Bytes, ascending: seq<Part>, from: nat, at: nat)
    requires Ahead(|message|, ascending, at) && from <= at
    ensures Ahead(|message|, ascending, from) && at <= |message|
    ensures Rewritten(message, ascending, from) == message[from..at] + Rewritten(message, ascending, at)
  {
    hide *;
    AheadFrom(|message|, ascending, from, at);
    if ascending == [] {
      RewrittenNone(message, from);
      RewrittenNone(message, at);
      assert message[from..] == message[from..at] + message[at..];
    } else {
      RewrittenStep(message, ascending, from);
      RewrittenStep(message, ascending, at);
      Joined(message, from, at, ascending[0].start, BodyOf(ascending[0]) + Rewritten(message, ascending[1..], ascending[0].end));
    }
  }

  lemma {:induction false} RewrittenNone(message: Bytes, at: nat)
    requires at <= |message|
    ensures Ahead(|message|, [], at) && Rewritten(message, [], at) == message[at..]
  {
  }

  lemma Joined(message: Bytes, from: nat, at: nat, to: nat, rest: Bytes)
    requires from <= at <= to <= |message|
    ensures message[from..to] + rest == message[from..at] + (message[at..to] + rest)
  {
    assert message[from..to] == message[from..at] + message[at..to];
  }

  /** Replacing the body of one more part, in front of those already replaced. */
  lemma {:induction false} SpliceStep(message: Bytes, ascending: seq<Part>, at: nat, p: Part)
    requires Ahead(|message|, ascending, at) && at <= |message| && p.start <= p.end <= at
    ensures Ahead(|message|, [p] + ascending, p.start)
    ensures var result := message[..at] + Rewritten(message, ascending, at);
      result[..p.start] + BodyOf(p) + result[p.end..] == message[..p.start] + Rewritten(message, [p] + ascending, p.start)
  {
    hide BodyOf;
    assert ([p] + ascending)[1..] == ascending;
    KeepsGap(message, ascending, p.end, at);
    hide *;
    StepOctets(message, Rewritten(message, ascending, at), at, p.start, p.end);
    RewrittenCons(message, ascending, p);
  }

  lemma {:induction false} RewrittenCons(message: Bytes, ascending: seq<Part>, p: Part)
    requires Ahead(|message|, ascending, p.end) && p.start <= p.end
    ensures Ahead(|message|, [p] + ascending, p.start)
    ensures Rewritten(message, [p] + ascending, p.start) == BodyOf(p) + Rewritten(message, ascending, p.end)
  {
    hide BodyOf;
    AheadInside(|message|, ascending, p.end);
    assert ([p] + ascending)[1..] == ascending;
    assert message[p.start..p.start] == [];
  }

  lemma StepOctets(message: Bytes, rest: Bytes, at: nat, start: nat, end: nat)
    requires start <= end <= at <= |message|
    ensures (message[..at] + rest)[..start] == message[..start]
    ensures (message[..at] + rest)[end..] == message[end..at] + rest
  {
  }

  /** The same parts in opposite order. */
  function Reversed(parts: seq<Part>): seq<Part> {
    if parts == [] then [] else Reversed(parts[1..]) + [parts[0]]
  }

  lemma {:induction false} ReversedAppend(parts: seq<Part>, p: Part)
    ensures Reversed(parts + [p]) == [p] + Reversed(parts)
  {
    if parts != [] {
      assert (parts + [p])[1..] == parts[1..] + [p];
      ReversedAppend(parts[1..], p);
    } else {
      assert (parts + [p])[1..] == [] && [] + [p] == [p] + [];
    }
  }

  lemma {:induction false} ReversedKeeps(parts: seq<Part>)
    ensures multiset(Reversed(parts)) == multiset(parts)
  {
    if parts != [] {
      ReversedKeeps(parts[1..]);
      MultisetOfTail(parts);
    }
  }

  /** The parts, front to rear. */
  function Ascending(parts: seq<Part>): seq<Part> { Reversed(SortDescending(parts)) }

  /** Where the parts that were already replaced begin. */
  function Frontier(n: nat, done: seq<Part>): nat {
    if done == [] then n else done[|done| - 1].start
  }

  lemma {:induction false} DescendingHead(n: nat, parts: seq<Part>)
    requires Descending(n, parts) && parts != []
    ensures parts[0].start <= parts[0].end <= n && Descending(parts[0].start, parts[1..])
  {
  }

  /** `ber_to_der` of modify_cms: parts are rewritten from the rear so that earlier offsets stay valid. */
  method RewriteParts(message: Bytes, parts: seq<Part>) returns (r: Result<Bytes, SpliceError>)
    requires Inside(|message|, parts) && Apart(parts)
    ensures r.Ok? <==> parts != [] && Convertible(parts)
    ensures r == Err(NoParts) <==> parts == []
    ensures r.Ok? ==> Ahead(|message|, Ascending(parts), 0) && r.value == Rewritten(message, Ascending(parts), 0)
  {
    hide Apart, Descending, Ahead, Rewritten, Reversed, Body, SortDescending;
    if |parts| == 0 {
      return Err(NoParts);
    }
    var sorted := SortDescending(parts);
    SortDescends(parts, |message|);
    SameMembers(parts, sorted);
    var result := message;
    NothingDone(message);
    assert sorted[0..] == sorted;
    for k := 0 to |sorted|
      invariant forall p :: p in sorted[..k] ==> Body(p).Some?
      invariant Frontier(|message|, sorted[..k]) <= |message|
      invariant Descending(Frontier(|message|, sorted[..k]), sorted[k..])
      invariant Ahead(|message|, Reversed(sorted[..k]), Frontier(|message|, sorted[..k]))
      invariant var at := Frontier(|message|, sorted[..k]);
        result == message[..at] + Rewritten(message, Reversed(sorted[..k]), at)
    {
      var p := sorted[k];
      assert sorted[k..][0] == p && sorted[k..][1..] == sorted[k + 1..];
      assert sorted[..k + 1] == sorted[..k] + [p];
      DescendingHead(Frontier(|message|, sorted[..k]), sorted[k..]);
      var body := Body(p);
      if body.None? {
        assert p in sorted;
        return Err(NotConverted);
      }
      SpliceStep(message, Reversed(sorted[..k]), Frontier(|message|, sorted[..k]), p);
      ReversedAppend(sorted[..k], p);
      result := result[..p.start] + body.value + result[p.end..];
    }
    assert sorted[..|sorted|] == sorted;
    KeepsGap(message, Reversed(sorted), 0, Frontier(|message|, sorted));
    return Ok(result);
  }

  lemma SameMembers(a: seq<Part>, b: seq<Part>)
    requires multiset(a) == multiset(b)
    ensures (forall p :: p in a <==> p in b) && |a| == |b|
  {
    SameLength(a, b);
    assert forall p :: p in a <==> p in multiset(a);
    assert forall p :: p in b <==> p in multiset(b);
  }

  lemma ReversedNone()
    ensures Reversed([]) == []
  {
  }

  lemma {:induction false} NothingDone(message: Bytes)
    ensures Ahead(|message|, Reversed([]), |message|)
    ensures message == message[..|message|] + Rewritten(message, Reversed([]), |message|)
  {
    hide *;
    ReversedNone();
    RewrittenNone(message, |message|);
    assert message == message[..|message|] + message[|message|..];
  }

  /** There is only one order in which the parts follow one another, so their order in the message tree is irrelevant. */
  lemma {:induction false} AheadUnique(n: nat, a: seq<Part>, b: seq<Part>, at: nat, to: nat)
    requires multiset(a) == multiset(b) && Apart(a) && Ahead(n, a, at) && Ahead(n, b, to)
    ensures a == b
    decreases |a|
  {
    SameMembers(a, b);
    if a != [] {
      HeadOrTail(a);
      HeadOrTail(b);
      AheadInside(n, a[1..], a[0].end);
      AheadInside(n, b[1..], b[0].end);
      assert a[0] == b[0];
      MultisetOfTail(a);
      MultisetOfTail(b);
      ApartTail(a);
      AheadUnique(n, a[1..], b[1..], a[0].end, b[0].end);
    }
  }

  lemma {:induction false} PartOrderIrrelevant(message: Bytes, parts: seq<Part>, asc: seq<Part>)
    requires Inside(|message|, parts) && Apart(parts)
    requires multiset(asc) == multiset(parts) && Ahead(|message|, asc, 0) && Ahead(|message|, Ascending(parts), 0)
    ensures Rewritten(message, Ascending(parts), 0) == Rewritten(message, asc, 0)
  {
    hide Ahead, Descending;
    SortDescends(parts, |message|);
    ReversedKeeps(SortDescending(parts));
    ApartPermute(parts, asc);
    AheadUnique(|message|, asc, Ascending(parts), 0, 0);
  }

  lemma ApartPermute(a: seq<Part>, b: seq<Part>)
    requires multiset(a) == multiset(b) && Apart(a)
    ensures Apart(b)
  {
    SameMembers(a, b);
  }

  /** Where the new body of part k stands. */
  function Place(ascending: seq<Part>, at: nat, k: nat): int
    requires k < |ascending|
    decreases k
  {
    if k == 0 then ascending[0].start - at
    else ascending[0].start - at + |BodyOf(ascending[0])| + Place(ascending[1..], ascending[0].end, k - 1)
  }

  /** Each part's new body stands where its old one did, moved by what the parts before it grew or shrank. */
  lemma {:induction false} PartSits(message: Bytes, ascending: seq<Part>, at: nat, k: nat)
    requires Ahead(|message|, ascending, at) && k < |ascending|
    ensures var o := Place(ascending, at, k);
      var body := BodyOf(ascending[k]);
      var out := Rewritten(message, ascending, at);
      0 <= o <= o + |body| <= |out| && out[o..o + |body|] == body
    decreases k
  {
    hide BodyOf, Rewritten, Ahead;
    var p := ascending[0];
    RewrittenStep(message, ascending, at);
    var front, body, rest := message[at..p.start], BodyOf(p), Rewritten(message, ascending[1..], p.end);
    if k == 0 {
      SliceOf(front, body, rest);
    } else {
      PartSits(message, ascending[1..], p.end, k - 1);
      var o := Place(ascending[1..], p.end, k - 1);
      SliceBehind(front + body, rest, o, |BodyOf(ascending[k])|);
      assert front + (body + rest) == front + body + rest;
    }
  }

  lemma SliceOf(a: Bytes, b: Bytes, c: Bytes)
    ensures (a + (b + c))[|a|..|a| + |b|] == b
  {
  }

  lemma SliceBehind(front: Bytes, s: Bytes, o: nat, n: nat)
    requires o + n <= |s|
    ensures (front + s)[|front| + o..|front| + o + n] == s[o..o + n]
  {
  }
}
