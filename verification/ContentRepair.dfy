// `normalize_wildduck_content` (src/lib.rs:561-583): CRLF in front of each MIME boundary and at the end.
module ContentRepair {
  import opened Arrangements
  import opened Octets

  const CR: byte := 0x0D
  const LF: byte := 0x0A
  const DASH: byte := 0x2D
  const CRLF: Bytes := [CR, LF]

  /** What a boundary line starts with, together with the line break before it. */
  function Marker(boundary: Bytes): Bytes { CRLF + [DASH, DASH] + boundary }

  predicate StartsAt(s: Bytes, m: Bytes, j: nat) {
    j + |m| <= |s| && s[j..j + |m|] == m
  }

  predicate AfterCrlf(s: Bytes, j: nat)
    requires j <= |s|
  {
    j >= 2 && s[j - 2..j] == CRLF
  }

  predicate EndsInCrlf(s: Bytes) { AfterCrlf(s, |s|) }

  /** A boundary starts at i without a line break of its own before it. */
  predicate Needs(s: Bytes, boundary: Option<Bytes>, i: nat)
    requires i <= |s|
  {
    boundary.Some? && StartsAt(s, Marker(boundary.value), i) && !AfterCrlf(s, i)
  }

  /** Every boundary occurrence has a line break before it, and the content ends in one. */
  ghost predicate Normal(s: Bytes, boundary: Option<Bytes>) {
    EndsInCrlf(s) && forall i :: 0 <= i <= |s| ==> !Needs(s, boundary, i)
  }

  /** The repaired content from position i on. */
  function RepairedFrom(s: Bytes, boundary: Option<Bytes>, i: nat): Bytes
    requires i <= |s|
    decreases |s| - i
  {
    if i == |s| then (if EndsInCrlf(s) then [] else CRLF)
    else (if Needs(s, boundary, i) then CRLF else []) + [s[i]] + RepairedFrom(s, boundary, i + 1)
  }

  lemma RepairStep(s: Bytes, boundary: Option<Bytes>, i: nat)
    requires i < |s|
    ensures var line := [s[i]] + RepairedFrom(s, boundary, i + 1);
      RepairedFrom(s, boundary, i) == (if Needs(s, boundary, i) then CRLF + line else line)
  {
    hide Needs;
    assert CRLF + [s[i]] + RepairedFrom(s, boundary, i + 1) == CRLF + ([s[i]] + RepairedFrom(s, boundary, i + 1));
    assert [] + [s[i]] == [s[i]];
  }

  function Repaired(s: Bytes, boundary: Option<Bytes>): Bytes {
    RepairedFrom(s, boundary, 0)
  }

  lemma {:induction false} RepairEnd(s: Bytes, boundary: Option<Bytes>)
    ensures RepairedFrom(s, boundary, |s|) == if EndsInCrlf(s) then [] else CRLF
  {
  }

  lemma RepairAdvances(s: Bytes, boundary: Option<Bytes>, i: nat, out: Bytes)
    requires i < |s|
    ensures var rest := RepairedFrom(s, boundary, i + 1);
      out + RepairedFrom(s, boundary, i) ==
        (if Needs(s, boundary, i) then out + CRLF + [s[i]] + rest else out + [s[i]] + rest)
  {
    hide *;
    RepairStep(s, boundary, i);
    var rest := RepairedFrom(s, boundary, i + 1);
    AssociateFour(out, CRLF, [s[i]], rest);
    Associate(out, [s[i]], rest);
  }

  method NormalizeContent(content: Bytes, boundary: Option<Bytes>) returns (out: Bytes)
    ensures out == Repaired(content, boundary)
  {
    hide Needs, RepairedFrom, AfterCrlf;
    out := [];
    var i := 0;
    while i < |content|
      invariant 0 <= i <= |content|
      invariant out + RepairedFrom(content, boundary, i) == Repaired(content, boundary)
    {
      RepairAdvances(content, boundary, i, out);
      if Needs(content, boundary, i) {
        out := out + CRLF;
      }
      out := out + [content[i]];
      i := i + 1;
    }
    RepairEnd(content, boundary);
    assert out + [] == out;
    if !EndsInCrlf(content) {
      out := out + CRLF;
    }
  }

  // ---------- Only line breaks are inserted ----------

  /** `b` is `a` with CRLF pairs inserted. */
  predicate CrlfInserted(a: Bytes, b: Bytes) {
    if a == [] && b == [] then true
    else
      || (|b| >= 2 && b[..2] == CRLF && CrlfInserted(a, b[2..]))
      || (a != [] && b != [] && a[0] == b[0] && CrlfInserted(a[1..], b[1..]))
  }

  lemma {:induction false} OnlyCrlfInserted(s: Bytes, boundary: Option<Bytes>, i: nat)
    requires i <= |s|
    ensures CrlfInserted(s[i..], RepairedFrom(s, boundary, i))
    decreases |s| - i
  {
    hide *;
    if i == |s| {
      EndInserted(s, boundary);
    } else {
      var rest := RepairedFrom(s, boundary, i + 1);
      OnlyCrlfInserted(s, boundary, i + 1);
      InsertedStep(s[i], s[i + 1..], rest);
      RepairStep(s, boundary, i);
      assert s[i..] == [s[i]] + s[i + 1..];
    }
  }

  lemma {:induction false} EndInserted(s: Bytes, boundary: Option<Bytes>)
    ensures CrlfInserted(s[|s|..], RepairedFrom(s, boundary, |s|))
  {
    assert CRLF[2..] == [];
  }

  lemma {:induction false} InsertedStep(c: byte, a: Bytes, b: Bytes)
    requires CrlfInserted(a, b)
    ensures CrlfInserted([c] + a, [c] + b) && CrlfInserted([c] + a, CRLF + ([c] + b))
  {
    assert ([c] + a)[1..] == a && ([c] + b)[1..] == b;
    assert (CRLF + ([c] + b))[2..] == [c] + b;
  }

  // ---------- Which boundaries one pass separates ----------

  /**
   * A line break written behind the marker's first k octets continues the marker: it ends there,
   * or goes on with what the marker starts with.
   */
  predicate BreaksAt(b: Bytes, k: nat) {
    var m := Marker(b);
    && 4 <= k < |m| && m[k] == CR && m[k - 2..k] != CRLF
    && (k + 1 == |m| || (m[k + 1] == LF && m[k + 2..] <= m))
  }

  /** An inserted line break can complete an occurrence of this boundary. */
  predicate Breakable(b: Bytes) { exists k :: 4 <= k < |Marker(b)| && BreaksAt(b, k) }

  lemma UnbreakableWithoutCr(b: Bytes)
    requires CR !in b
    ensures !Breakable(b)
  {
    var m := Marker(b);
    forall k | 4 <= k < |m| ensures m[k] != CR {
      assert m[k] == b[k - 4];
    }
  }

  /** What was written before position i, as far as the check for a line break looks. */
  predicate Written(pre: Bytes, s: Bytes, boundary: Option<Bytes>, i: nat)
    requires i <= |s|
  {
    && (i == 0 ==> pre == [])
    && (i >= 1 ==> pre != [] && pre[|pre| - 1] == s[i - 1])
    && (i == 1 && |pre| >= 2 ==> pre[|pre| - 2] == LF)
    && (i >= 2 && !Needs(s, boundary, i - 1) ==> |pre| >= 2 && pre[|pre| - 2] == s[i - 2])
  }

  lemma WrittenStep(pre: Bytes, s: Bytes, boundary: Option<Bytes>, i: nat)
    requires i < |s| && Written(pre, s, boundary, i)
    ensures Written(pre + (if Needs(s, boundary, i) then CRLF else []) + [s[i]], s, boundary, i + 1)
  {
    hide Needs;
  }

  lemma NeedsMeansCr(s: Bytes, boundary: Option<Bytes>, i: nat)
    requires i <= |s| && Needs(s, boundary, i)
    ensures i + 4 <= |s| && s[i] == CR && Marker(boundary.value) <= s[i..]
  {
    var m := Marker(boundary.value);
    assert s[i..i + |m|][0] == CR;
    assert s[i..][..|m|] == s[i..i + |m|];
  }

  /** The output before position i ends in a line break exactly when the input does. */
  lemma WrittenCrlf(pre: Bytes, s: Bytes, boundary: Option<Bytes>, i: nat)
    requires i <= |s| && Written(pre, s, boundary, i)
    ensures EndsInCrlf(pre) <==> AfterCrlf(s, i)
  {
    hide Needs, AfterCrlf;
    CrlfOctets(pre, |pre|);
    CrlfOctets(s, i);
    if i >= 1 && Needs(s, boundary, i - 1) {
      hide *;
      NeedsMeansCr(s, boundary, i - 1);
    }
  }

  lemma CrlfOctets(s: Bytes, j: nat)
    requires j <= |s|
    ensures AfterCrlf(s, j) <==> j >= 2 && s[j - 2] == CR && s[j - 1] == LF
  {
    if j >= 2 {
      assert s[j - 2..j] == [s[j - 2], s[j - 1]];
    }
  }

  lemma BreakCondition(b: Bytes, k: nat, pre: Bytes)
    requires 1 <= k < |Marker(b)| && Marker(b)[k] == CR && !EndsInCrlf(pre)
    requires k <= |pre| && Marker(b)[..k] == pre[|pre| - k..]
    ensures k >= 4 && Marker(b)[k - 2..k] != CRLF
  {
    var m := Marker(b);
    assert m[1] == LF && m[2] == DASH && m[3] == DASH;
    assert m[k - 2..k] == m[..k][k - 2..];
    assert pre[|pre| - 2..] == pre[|pre| - k..][k - 2..];
  }

  /**
   * A marker that started in the output before position i, at an octet of the input, goes on in the input,
   * unless a line break was inserted in it.
   */
  lemma {:induction false} MarkerSpans(s: Bytes, b: Bytes, i: nat, pre: Bytes, k: nat)
    requires i <= |s| && Written(pre, s, Some(b), i) && 1 <= k <= |Marker(b)| && k <= |pre|
    requires Marker(b)[..k] == pre[|pre| - k..] && Marker(b)[k..] <= RepairedFrom(s, Some(b), i)
    ensures Marker(b)[k..] <= s[i..] || Breakable(b)
    decreases |s| - i
  {
    hide *;
    var m := Marker(b);
    if k < |m| {
      WrittenCrlf(pre, s, Some(b), i);
      if i == |s| {
        SpansEnd(s, b, pre, k);
      } else {
        WrittenStep(pre, s, Some(b), i);
        if Needs(s, Some(b), i) {
          SpansBreak(s, b, i, pre, k);
          if k + 2 < |m| {
            MarkerSpans(s, b, i + 1, pre + CRLF + [s[i]], k + 3);
          }
          BreakSpanned(s, b, i, k);
        } else {
          SpansOctet(s, b, i, pre, k);
          MarkerSpans(s, b, i + 1, pre + [] + [s[i]], k + 1);
          PrefixFrom(s, m, i, k);
        }
      }
    } else {
      assert m[k..] == [];
    }
  }

  lemma {:induction false} SpansEnd(s: Bytes, b: Bytes, pre: Bytes, k: nat)
    requires 1 <= k < |Marker(b)| && k <= |pre| && Marker(b)[..k] == pre[|pre| - k..]
    requires (EndsInCrlf(pre) <==> AfterCrlf(s, |s|)) && Marker(b)[k..] <= RepairedFrom(s, Some(b), |s|)
    ensures Breakable(b)
  {
    hide Marker, RepairedFrom, AfterCrlf, BreaksAt, Breakable;
    RepairEnd(s, Some(b));
    EndOctets(Marker(b), k, RepairedFrom(s, Some(b), |s|));
    BreakCondition(b, k, pre);
    BreaksWhen(b, k);
  }

  lemma EndOctets(m: Bytes, k: nat, end: Bytes)
    requires k < |m| && m[k..] <= end && (end == [] || end == CRLF)
    ensures end == CRLF && m[k] == CR && (k + 1 == |m| || (m[k + 1] == LF && m[k + 2..] <= m))
  {
    var w := m[k..];
    assert w[0] == end[0];
    if k + 1 < |m| {
      assert w[1] == end[1];
      assert m[k + 2..] == [];
    }
  }

  lemma BreaksWhen(b: Bytes, k: nat)
    requires var m := Marker(b);
      && 4 <= k < |m| && m[k] == CR && m[k - 2..k] != CRLF
      && (k + 1 == |m| || (m[k + 1] == LF && m[k + 2..] <= m))
    ensures Breakable(b)
  {
    assert BreaksAt(b, k);
  }

  /** Where the marker meets an inserted line break. */
  lemma SpansBreak(s: Bytes, b: Bytes, i: nat, pre: Bytes, k: nat)
    requires i < |s| && Needs(s, Some(b), i) && 1 <= k < |Marker(b)| && k <= |pre|
    requires (EndsInCrlf(pre) <==> AfterCrlf(s, i)) && Marker(b)[..k] == pre[|pre| - k..]
    requires Marker(b)[k..] <= RepairedFrom(s, Some(b), i)
    ensures var m := Marker(b);
      && 4 <= k && m[k] == CR && m[k - 2..k] != CRLF && (k + 1 < |m| ==> m[k + 1] == LF)
      && (k + 2 < |m| ==> (
            && m[k + 2] == s[i] && m[k + 3..] <= RepairedFrom(s, Some(b), i + 1)
            && m[..k + 3] == (pre + CRLF + [s[i]])[|pre| - k..]))
  {
    hide *;
    NeedsNoCrlf(s, b, i);
    var m := Marker(b);
    RepairStep(s, Some(b), i);
    var rest := RepairedFrom(s, Some(b), i + 1);
    PrefixOctets(m, k, s[i], rest);
    BreakCondition(b, k, pre);
    if k + 2 < |m| {
      SuffixGrows(m, pre, k, s[i]);
    }
  }

  lemma NeedsNoCrlf(s: Bytes, b: Bytes, i: nat)
    requires i <= |s| && Needs(s, Some(b), i)
    ensures !AfterCrlf(s, i)
  {
  }

  lemma SuffixGrows(m: Bytes, pre: Bytes, k: nat, c: byte)
    requires k <= |pre| && k + 2 < |m| && m[..k] == pre[|pre| - k..] && m[k] == CR && m[k + 1] == LF && m[k + 2] == c
    ensures m[..k + 3] == (pre + CRLF + [c])[|pre| - k..]
  {
    assert m[..k + 3] == m[..k] + CRLF + [c];
    assert (pre + CRLF + [c])[|pre| - k..] == pre[|pre| - k..] + CRLF + [c];
  }

  lemma PrefixOctets(m: Bytes, k: nat, c: byte, rest: Bytes)
    requires k < |m| && m[k..] <= CRLF + ([c] + rest)
    ensures m[k] == CR && (k + 1 < |m| ==> m[k + 1] == LF)
    ensures k + 2 < |m| ==> m[k + 2] == c && m[k + 3..] <= rest
  {
    var w, r := m[k..], CRLF + ([c] + rest);
    assert w[0] == r[0];
    assert k + 1 < |m| ==> w[1] == r[1];
    if k + 2 < |m| {
      assert w[2] == r[2];
      assert m[k + 3..] == w[3..] && r[3..] == rest;
      assert w[3..] == r[3..|w|] == rest[..|w| - 3];
    }
  }

  lemma BreakSpanned(s: Bytes, b: Bytes, i: nat, k: nat)
    requires i < |s| && Needs(s, Some(b), i) && 4 <= k < |Marker(b)|
    requires var m := Marker(b);
      && m[k] == CR && m[k - 2..k] != CRLF && (k + 1 < |m| ==> m[k + 1] == LF)
      && (k + 2 < |m| ==> m[k + 2] == s[i] && (m[k + 3..] <= s[i + 1..] || Breakable(b)))
    ensures Breakable(b)
  {
    hide *;
    var m := Marker(b);
    if k + 2 >= |m| {
      assert k + 2 == |m| ==> m[k + 2..] == [];
      BreaksWhen(b, k);
    } else if m[k + 3..] <= s[i + 1..] {
      NeedsMeansCr(s, Some(b), i);
      PrefixFrom(s, m, i, k + 2);
      BothPrefixes(m, m[k + 2..], s[i..]);
      BreaksWhen(b, k);
    }
  }

  lemma BothPrefixes(a: Bytes, b: Bytes, s: Bytes)
    requires a <= s && b <= s && |b| <= |a|
    ensures b <= a
  {
    assert b == s[..|b|] == a[..|b|];
  }

  lemma SpansOctet(s: Bytes, b: Bytes, i: nat, pre: Bytes, k: nat)
    requires i < |s| && !Needs(s, Some(b), i) && 1 <= k < |Marker(b)| && k <= |pre|
    requires Marker(b)[..k] == pre[|pre| - k..] && Marker(b)[k..] <= RepairedFrom(s, Some(b), i)
    ensures var m, next := Marker(b), pre + [] + [s[i]];
      && m[k] == s[i] && m[k + 1..] <= RepairedFrom(s, Some(b), i + 1)
      && k + 1 <= |next| && m[..k + 1] == next[|next| - (k + 1)..]
  {
    hide *;
    RepairStep(s, Some(b), i);
    OctetSpanned(Marker(b), pre, k, s[i], RepairedFrom(s, Some(b), i + 1));
  }

  lemma OctetSpanned(m: Bytes, pre: Bytes, k: nat, c: byte, rest: Bytes)
    requires k < |m| && k <= |pre| && m[..k] == pre[|pre| - k..] && m[k..] <= [c] + rest
    ensures m[k] == c && m[k + 1..] <= rest
    ensures var next := pre + [] + [c];
      k + 1 <= |next| && m[..k + 1] == next[|next| - (k + 1)..]
  {
    var w, r, next := m[k..], [c] + rest, pre + [] + [c];
    assert w[0] == r[0] && r[1..] == rest;
    assert m[k + 1..] == w[1..] == r[1..|w|] == rest[..|w| - 1];
    assert next[|next| - (k + 1)..] == pre[|pre| - k..] + [c];
  }

  lemma PrefixFrom(s: Bytes, m: Bytes, i: nat, k: nat)
    requires i < |s| && k < |m| && m[k] == s[i]
    ensures m[k + 1..] <= s[i + 1..] ==> m[k..] <= s[i..]
  {
    assert m[k..] == [s[i]] + m[k + 1..] && s[i..] == [s[i]] + s[i + 1..];
  }

  /** What stands at i when the output from i on starts with a boundary. */
  lemma MarkerHead(s: Bytes, b: Bytes, i: nat)
    requires i <= |s| && StartsAt(RepairedFrom(s, Some(b), i), Marker(b), 0)
    ensures i < |s| && s[i] == CR && !Needs(s, Some(b), i)
    ensures Marker(b)[1..] <= RepairedFrom(s, Some(b), i + 1)
  {
    hide Needs;
    var r, m := RepairedFrom(s, Some(b), i), Marker(b);
    assert m <= r;
    assert m[0] == CR && m[2] == DASH && r[0] == CR && r[2] == DASH;
    if Needs(s, Some(b), i) {
      NeedsMeansCr(s, Some(b), i);
      RepairStep(s, Some(b), i);
      assert false;
    }
    RepairStep(s, Some(b), i);
    assert m[1..] == r[1..|m|];
    assert r[1..] == RepairedFrom(s, Some(b), i + 1);
  }

  /** A boundary that starts the output from i on starts the input at i, and nothing was inserted there. */
  lemma {:induction false} StartsInInput(s: Bytes, b: Bytes, i: nat, pre: Bytes)
    requires i <= |s| && !Breakable(b) && Written(pre, s, Some(b), i)
    requires StartsAt(RepairedFrom(s, Some(b), i), Marker(b), 0)
    ensures AfterCrlf(s, i)
  {
    hide *;
    MarkerHead(s, b, i);
    WrittenStep(pre, s, Some(b), i);
    MarkerFirst(b, pre);
    MarkerSpans(s, b, i + 1, pre + [] + [s[i]], 1);
    PrefixFrom(s, Marker(b), i, 0);
    assert Marker(b)[0..] == Marker(b);
    NoNeedStandsBehind(s, b, i);
  }

  lemma MarkerFirst(b: Bytes, pre: Bytes)
    ensures |Marker(b)| >= 4 && Marker(b)[0] == CR
    ensures var next := pre + [] + [CR]; |next| >= 1 && Marker(b)[..1] == next[|next| - 1..]
  {
  }

  lemma NoNeedStandsBehind(s: Bytes, b: Bytes, i: nat)
    requires i <= |s| && Marker(b) <= s[i..] && !Needs(s, Some(b), i)
    ensures AfterCrlf(s, i)
  {
    assert s[i..i + |Marker(b)|] == s[i..][..|Marker(b)|];
  }

  ghost predicate BoundariesSeparated(out: Bytes, b: Bytes, from: nat) {
    forall j :: from <= j <= |out| && StartsAt(out, Marker(b), j) ==> AfterCrlf(out, j)
  }

  lemma {:induction false} SeparatedFrom(s: Bytes, b: Bytes, i: nat, pre: Bytes)
    requires i <= |s| && !Breakable(b) && Written(pre, s, Some(b), i)
    ensures BoundariesSeparated(pre + RepairedFrom(s, Some(b), i), b, |pre|)
    ensures EndsInCrlf(pre + RepairedFrom(s, Some(b), i))
    decreases |s| - i
  {
    hide Needs, StartsAt, Written, RepairedFrom, Breakable;
    var r := RepairedFrom(s, Some(b), i);
    var out := pre + r;
    if i == |s| {
      RepairEnd(s, Some(b));
      WrittenCrlf(pre, s, Some(b), i);
      assert r == [] ==> out == pre;
      assert r == CRLF ==> out[|pre|..] == CRLF;
      TooShort(out, b, |pre|);
    } else {
      var next := pre + (if Needs(s, Some(b), i) then CRLF else []) + [s[i]];
      RepairAdvances(s, Some(b), i, pre);
      assert pre + [] + [s[i]] == pre + [s[i]];
      assert out == next + RepairedFrom(s, Some(b), i + 1);
      WrittenStep(pre, s, Some(b), i);
      SeparatedFrom(s, b, i + 1, next);
      forall j | |pre| <= j < |next| && StartsAt(out, Marker(b), j) ensures AfterCrlf(out, j) {
        SeparatedHere(s, b, i, pre, j);
      }
    }
  }

  lemma TooShort(out: Bytes, b: Bytes, from: nat)
    requires |out| <= from + 2
    ensures BoundariesSeparated(out, b, from)
  {
  }

  /** The boundaries that start at the octets written for position i. */
  lemma {:induction false} SeparatedHere(s: Bytes, b: Bytes, i: nat, pre: Bytes, j: nat)
    requires i < |s| && !Breakable(b) && Written(pre, s, Some(b), i)
    requires |pre| <= j <= |pre| + (if Needs(s, Some(b), i) then 2 else 0)
    requires StartsAt(pre + RepairedFrom(s, Some(b), i), Marker(b), j)
    ensures AfterCrlf(pre + RepairedFrom(s, Some(b), i), j)
  {
    hide *;
    var r, m := RepairedFrom(s, Some(b), i), Marker(b);
    StartsBehind(pre, r, m, j);
    if j == |pre| {
      StartsInInput(s, b, i, pre);
      WrittenCrlf(pre, s, Some(b), i);
      CrlfStays(pre, r);
    } else {
      var line := [s[i]] + RepairedFrom(s, Some(b), i + 1);
      RepairStep(s, Some(b), i);
      MarkerFirst(b, []);
      StartsAtOctet(r, m, j - |pre|, 0);
      GapSeparates(pre, line);
      assert j == |pre| + 2;
    }
  }

  lemma CrlfStays(pre: Bytes, r: Bytes)
    requires EndsInCrlf(pre)
    ensures AfterCrlf(pre + r, |pre|)
  {
    assert (pre + r)[|pre| - 2..|pre|] == pre[|pre| - 2..];
  }

  lemma GapSeparates(pre: Bytes, line: Bytes)
    ensures AfterCrlf(pre + (CRLF + line), |pre| + 2) && (CRLF + line)[1] != CR
  {
    assert (pre + (CRLF + line))[|pre|..|pre| + 2] == CRLF;
  }

  lemma StartsBehind(pre: Bytes, r: Bytes, m: Bytes, j: nat)
    requires |pre| <= j && StartsAt(pre + r, m, j)
    ensures StartsAt(r, m, j - |pre|)
  {
    assert (pre + r)[j..j + |m|] == r[j - |pre|..j - |pre| + |m|];
  }

  lemma StartsAtOctet(s: Bytes, m: Bytes, j: nat, k: nat)
    requires StartsAt(s, m, j) && k < |m|
    ensures s[j + k] == m[k]
  {
    assert s[j..j + |m|][k] == m[k];
  }

  lemma {:induction false} EndsRepaired(s: Bytes, i: nat, pre: Bytes)
    requires i <= |s| && pre == s[..i]
    ensures pre + RepairedFrom(s, None, i) == if EndsInCrlf(s) then s else s + CRLF
    decreases |s| - i
  {
    if i < |s| {
      assert s[..i + 1] == s[..i] + [s[i]];
      assert pre + ([] + [s[i]] + RepairedFrom(s, None, i + 1)) == s[..i + 1] + RepairedFrom(s, None, i + 1);
      EndsRepaired(s, i + 1, s[..i + 1]);
    }
  }

  /** The output is normal: all its boundaries are separated and it ends in CRLF. */
  lemma RepairedIsNormal(s: Bytes, boundary: Option<Bytes>)
    requires boundary.Some? ==> !Breakable(boundary.value)
    ensures Normal(Repaired(s, boundary), boundary)
  {
    hide *;
    match boundary
    case None =>
      EndsRepaired(s, 0, []);
      FromTheStart(s, None);
      LineBreakEnds(s);
      NormalWithoutBoundary(Repaired(s, None));
    case Some(b) =>
      WrittenNothing(s, boundary);
      SeparatedFrom(s, b, 0, []);
      FromTheStart(s, boundary);
      NormalWhenSeparated(Repaired(s, boundary), b);
  }

  lemma {:induction false} FromTheStart(s: Bytes, boundary: Option<Bytes>)
    ensures [] + RepairedFrom(s, boundary, 0) == Repaired(s, boundary) && s[..0] == []
  {
    hide RepairedFrom;
    assert [] + RepairedFrom(s, boundary, 0) == RepairedFrom(s, boundary, 0);
  }

  lemma WrittenNothing(s: Bytes, boundary: Option<Bytes>)
    ensures Written([], s, boundary, 0)
  {
  }

  lemma LineBreakEnds(s: Bytes)
    ensures EndsInCrlf(s + CRLF)
  {
    assert (s + CRLF)[|s|..] == CRLF;
  }

  lemma NormalWithoutBoundary(out: Bytes)
    requires EndsInCrlf(out)
    ensures Normal(out, None)
  {
  }

  lemma NormalWhenSeparated(out: Bytes, b: Bytes)
    requires BoundariesSeparated(out, b, 0) && EndsInCrlf(out)
    ensures Normal(out, Some(b))
  {
    hide StartsAt, AfterCrlf;
  }

  lemma {:induction false} NothingToRepair(s: Bytes, boundary: Option<Bytes>, i: nat)
    requires i <= |s| && Normal(s, boundary)
    ensures RepairedFrom(s, boundary, i) == s[i..]
    decreases |s| - i
  {
    hide Needs;
    if i < |s| {
      NothingToRepair(s, boundary, i + 1);
    }
  }

  lemma {:induction false} RepairGrows(s: Bytes, boundary: Option<Bytes>, i: nat)
    requires i <= |s|
    ensures |RepairedFrom(s, boundary, i)| >= |s| - i
    ensures |RepairedFrom(s, boundary, i)| == |s| - i ==>
      EndsInCrlf(s) && forall k :: i <= k < |s| ==> !Needs(s, boundary, k)
    decreases |s| - i
  {
    hide Needs;
    if i < |s| {
      RepairGrows(s, boundary, i + 1);
    }
  }

  /** Exactly the normal contents are left alone. */
  lemma UnchangedExactly(s: Bytes, boundary: Option<Bytes>)
    ensures Repaired(s, boundary) == s <==> Normal(s, boundary)
  {
    if Normal(s, boundary) {
      NothingToRepair(s, boundary, 0);
    }
    if Repaired(s, boundary) == s {
      RepairGrows(s, boundary, 0);
      assert !Needs(s, boundary, |s|);
    }
  }

  lemma RepairIdempotent(s: Bytes, boundary: Option<Bytes>)
    requires boundary.Some? ==> !Breakable(boundary.value)
    ensures Repaired(Repaired(s, boundary), boundary) == Repaired(s, boundary)
  {
    hide Breakable;
    RepairedIsNormal(s, boundary);
    UnchangedExactly(Repaired(s, boundary), boundary);
  }

  // ---------- Contents that one pass does not repair ----------

  /** Content in which one pass completes a marker that it then leaves unseparated. */
  function Unlucky(b: Bytes, k: nat): Bytes
    requires k <= |Marker(b)|
  {
    if k + 2 >= |Marker(b)| then Marker(b)[..k] else Marker(b)[..k] + Marker(b)
  }

  lemma {:induction false} Untouched(s: Bytes, boundary: Option<Bytes>, i: nat, e: nat)
    requires i <= e <= |s| && forall p :: i <= p < e ==> !Needs(s, boundary, p)
    ensures RepairedFrom(s, boundary, i) == s[i..e] + RepairedFrom(s, boundary, e)
    decreases e - i
  {
    hide *;
    if i < e {
      RepairStep(s, boundary, i);
      Untouched(s, boundary, i + 1, e);
      assert s[i..e] == [s[i]] + s[i + 1..e];
      Associate([s[i]], s[i + 1..e], RepairedFrom(s, boundary, e));
    } else {
      assert s[i..e] == [];
      assert [] + RepairedFrom(s, boundary, e) == RepairedFrom(s, boundary, e);
    }
  }

  lemma ShortIsUntouched(s: Bytes, b: Bytes, i: nat)
    requires i <= |s| && |s| - i < |Marker(b)|
    ensures forall p :: i <= p <= |s| ==> !Needs(s, Some(b), p)
  {
  }

  /** In front of the second marker nothing is inserted. */
  lemma UnluckyFront(b: Bytes, k: nat, p: nat)
    requires BreaksAt(b, k) && k + 2 < |Marker(b)| && p < k
    ensures !Needs(Unlucky(b, k), Some(b), p)
  {
    var m, s := Marker(b), Unlucky(b, k);
    StartsAtOctets(s, m, p);
    assert m[k + 2..][0] == m[k + 2] == CR;
    if p == 0 {
      assert s[k + 2] == m[2] == DASH;
    } else {
      UnluckyMiddle(b, k, p);
      assert s[p + (k - p)] == s[k];
    }
  }

  lemma StartsAtOctets(s: Bytes, m: Bytes, j: nat)
    ensures StartsAt(s, m, j) ==> forall t :: 0 <= t < |m| ==> s[j + t] == m[t]
  {
    if StartsAt(s, m, j) {
      assert forall t :: 0 <= t < |m| ==> s[j..j + |m|][t] == m[t];
    }
  }

  /** A marker in between would put CR where the marker has a dash. */
  lemma UnluckyMiddle(b: Bytes, k: nat, p: nat)
    requires BreaksAt(b, k) && k + 2 < |Marker(b)| && 0 < p < k
    ensures var m, s := Marker(b), Unlucky(b, k);
      !(s[p] == m[0] && s[k] == m[k - p] && s[p + 2] == m[2] && s[p + k + 2] == m[k + 2])
  {
    var m, s := Marker(b), Unlucky(b, k);
    assert m[0] == CR && m[1] == LF && m[2] == DASH && m[3] == DASH;
    assert s[p] == m[p] && s[k] == m[0] && s[p + k + 2] == m[p + 2];
    assert m[p] == CR ==> p >= 4;
    assert m[k - p] == CR ==> k - p >= 4;
    assert p + 2 < k ==> s[p + 2] == m[p + 2];
    assert m[k + 2..][0] == m[k + 2] == CR;
  }

  /** The witness: after one pass a boundary stands at the start, with no line break before it. */
  lemma UnluckyBreaks(b: Bytes, k: nat)
    requires BreaksAt(b, k)
    ensures !Normal(Repaired(Unlucky(b, k), Some(b)), Some(b))
  {
    hide Marker, Unlucky, Repaired, Normal;
    var out := Repaired(Unlucky(b, k), Some(b));
    if k + 2 >= |Marker(b)| {
      UnluckyEnd(b, k);
    } else {
      UnluckyInside(b, k);
    }
    AtStart(out, b);
  }

  lemma UnluckyEnd(b: Bytes, k: nat)
    requires BreaksAt(b, k) && k + 2 >= |Marker(b)|
    ensures Marker(b) <= Repaired(Unlucky(b, k), Some(b))
  {
    var m, s := Marker(b), Unlucky(b, k);
    ShortIsUntouched(s, b, 0);
    hide Marker, RepairedFrom, Needs;
    Untouched(s, Some(b), 0, |s|);
    RepairEnd(s, Some(b));
    assert s[|s| - 2..] == m[k - 2..k];
    assert Repaired(s, Some(b)) == m[..k] + CRLF;
    assert m == m[..k] + CRLF[..|m| - k];
  }

  lemma UnluckyInside(b: Bytes, k: nat)
    requires BreaksAt(b, k) && k + 2 < |Marker(b)|
    ensures Marker(b) <= Repaired(Unlucky(b, k), Some(b))
  {
    hide *;
    var s := Unlucky(b, k);
    UnluckySize(b, k);
    UnluckyRepaired(b, k);
    UnluckyOctets(b, k, RepairedFrom(s, Some(b), |s|));
  }

  lemma UnluckyRepaired(b: Bytes, k: nat)
    requires BreaksAt(b, k) && k + 2 < |Marker(b)|
    ensures var s := Unlucky(b, k);
      k + 1 <= |s| && Repaired(s, Some(b)) == s[0..k] + (CRLF + ([s[k]] + (s[k + 1..|s|] + RepairedFrom(s, Some(b), |s|))))
  {
    hide *;
    var s := Unlucky(b, k);
    UnluckySize(b, k);
    forall p | 0 <= p < k ensures !Needs(s, Some(b), p) {
      UnluckyFront(b, k, p);
    }
    UnluckySecond(b, k);
    Untouched(s, Some(b), 0, k);
    RepairStep(s, Some(b), k);
    ShortIsUntouched(s, b, k + 1);
    Untouched(s, Some(b), k + 1, |s|);
    FromStart(s, Some(b));
  }

  lemma {:induction false} FromStart(s: Bytes, boundary: Option<Bytes>)
    ensures Repaired(s, boundary) == RepairedFrom(s, boundary, 0)
  {
  }

  lemma UnluckySize(b: Bytes, k: nat)
    requires k + 2 < |Marker(b)|
    ensures k + 1 <= |Unlucky(b, k)| && |Unlucky(b, k)| - (k + 1) < |Marker(b)|
  {
    hide Marker;
  }

  lemma UnluckySecond(b: Bytes, k: nat)
    requires BreaksAt(b, k) && k + 2 < |Marker(b)|
    ensures Needs(Unlucky(b, k), Some(b), k)
  {
    hide Marker;
    var m, s := Marker(b), Unlucky(b, k);
    assert s[k..k + |m|] == m;
    assert s[k - 2..k] == m[k - 2..k];
  }

  lemma UnluckyOctets(b: Bytes, k: nat, end: Bytes)
    requires BreaksAt(b, k) && k + 2 < |Marker(b)|
    ensures var m, s := Marker(b), Unlucky(b, k);
      m <= s[0..k] + (CRLF + ([s[k]] + (s[k + 1..|s|] + end)))
  {
    hide *;
    var m, s := Marker(b), Unlucky(b, k);
    UnluckyParts(b, k);
    Completed(m, m[..k], m[k + 2..], end);
    assert [s[k]] + (s[k + 1..|s|] + end) == [s[k]] + s[k + 1..|s|] + end;
  }

  lemma UnluckyParts(b: Bytes, k: nat)
    requires BreaksAt(b, k) && k + 2 < |Marker(b)|
    ensures var m, s := Marker(b), Unlucky(b, k);
      && k < |s| && s[0..k] == m[..k] && [s[k]] + s[k + 1..|s|] == m
      && m == m[..k] + CRLF + m[k + 2..] && m[k + 2..] <= m
  {
    var m, s := Marker(b), Unlucky(b, k);
    FrontAndMarker(m, k);
    MarkerParts(m, k);
  }

  lemma FrontAndMarker(m: Bytes, k: nat)
    requires k < |m|
    ensures var s := m[..k] + m;
      k < |s| && s[0..k] == m[..k] && [s[k]] + s[k + 1..|s|] == m
  {
    var s := m[..k] + m;
    assert s[k..] == m && s[k..] == [s[k]] + s[k + 1..];
  }

  lemma MarkerParts(m: Bytes, k: nat)
    requires k + 2 <= |m| && m[k] == CR && m[k + 1] == LF
    ensures m == m[..k] + CRLF + m[k + 2..]
  {
  }

  lemma Completed(m: Bytes, front: Bytes, w: Bytes, end: Bytes)
    requires m == front + CRLF + w && w <= m
    ensures m <= front + (CRLF + (m + end))
  {
    var all := front + (CRLF + (m + end));
    assert m + end == w + (m[|w|..] + end);
    assert all == front + CRLF + w + (m[|w|..] + end);
  }

  lemma AtStart(out: Bytes, b: Bytes)
    requires Marker(b) <= out
    ensures !Normal(out, Some(b))
  {
    assert out[0..|Marker(b)|] == Marker(b);
    assert Needs(out, Some(b), 0);
  }

  /** One pass repairs every content, and is idempotent, exactly for the boundaries that no insertion can complete. */
  lemma OnePassExactly(b: Bytes)
    ensures (forall s :: Normal(Repaired(s, Some(b)), Some(b))) <==> !Breakable(b)
    ensures (forall s :: Repaired(Repaired(s, Some(b)), Some(b)) == Repaired(s, Some(b))) <==> !Breakable(b)
  {
    hide Normal, Repaired, BreaksAt;
    forall s ensures Repaired(Repaired(s, Some(b)), Some(b)) == Repaired(s, Some(b)) <==> Normal(Repaired(s, Some(b)), Some(b)) {
      UnchangedExactly(Repaired(s, Some(b)), Some(b));
    }
    if Breakable(b) {
      var k :| 4 <= k < |Marker(b)| && BreaksAt(b, k);
      UnluckyBreaks(b, k);
    } else {
      forall s ensures Normal(Repaired(s, Some(b)), Some(b)) {
        RepairedIsNormal(s, Some(b));
      }
    }
  }

  /** Such a boundary: a line break in front of the second marker makes a third, which starts at the first octet. */
  lemma CrBoundaryNeedsTwoPasses()
    ensures var b := CRLF + CRLF + [DASH, DASH];
      Breakable(b) && !Normal(Repaired(CRLF + [DASH, DASH] + Marker(b), Some(b)), Some(b))
  {
    var b := CRLF + CRLF + [DASH, DASH];
    var m := Marker(b);
    assert m == [CR, LF, DASH, DASH, CR, LF, CR, LF, DASH, DASH];
    assert m[2..4] == [DASH, DASH] && m[6..] == m[..4] && m[..4] == CRLF + [DASH, DASH];
    assert BreaksAt(b, 4);
    hide *;
    UnluckyBreaks(b, 4);
    UnluckyAtFour(b);
  }

  lemma UnluckyAtFour(b: Bytes)
    requires |Marker(b)| > 6
    ensures Unlucky(b, 4) == CRLF + [DASH, DASH] + Marker(b)
  {
    assert Marker(b)[..4] == CRLF + [DASH, DASH];
  }

  // ---------- Every octet of the repaired content ----------

  /** At i stand CR LF and two dashes with the boundary behind them, and no CR LF in front. */
  ghost predicate Unseparated(s: Bytes, boundary: Option<Bytes>, i: nat) {
    && boundary.Some? && i + 4 + |boundary.value| <= |s|
    && s[i] == 13 && s[i + 1] == 10 && s[i + 2] == 45 && s[i + 3] == 45
    && s[i + 4..i + 4 + |boundary.value|] == boundary.value
    && !(i >= 2 && s[i - 2] == 13 && s[i - 1] == 10)
  }

  lemma NeedsExactly(s: Bytes, boundary: Option<Bytes>, i: nat)
    requires i <= |s|
    ensures Needs(s, boundary, i) <==> Unseparated(s, boundary, i)
  {
    AfterCrlfExactly(s, i);
    if boundary.Some? {
      var b := boundary.value;
      hide AfterCrlf;
      if i + |Marker(b)| <= |s| {
        var there := s[i..i + |Marker(b)|];
        assert there[..4] + there[4..] == there && there[4..] == s[i + 4..i + 4 + |b|];
        assert Marker(b)[..4] == [13, 10, 45, 45] && Marker(b)[4..] == b;
        assert there[..4] == [s[i], s[i + 1], s[i + 2], s[i + 3]];
      }
    }
  }

  lemma AfterCrlfExactly(s: Bytes, i: nat)
    requires i <= |s|
    ensures AfterCrlf(s, i) <==> i >= 2 && s[i - 2] == 13 && s[i - 1] == 10
  {
  }

  /** How many such places there are before i. */
  ghost function Breaks(s: Bytes, boundary: Option<Bytes>, i: nat): nat {
    if i == 0 then 0 else Breaks(s, boundary, i - 1) + if Unseparated(s, boundary, i - 1) then 1 else 0
  }

  lemma {:induction false} BreaksGrow(s: Bytes, boundary: Option<Bytes>, i: nat, k: nat)
    requires i <= k
    ensures Breaks(s, boundary, i) <= Breaks(s, boundary, k)
  {
    if i < k {
      BreaksGrow(s, boundary, i, k - 1);
    }
  }

  lemma {:induction false} RepairedFromAt(s: Bytes, boundary: Option<Bytes>, i: nat, k: nat)
    requires i <= k <= |s|
    ensures var out := RepairedFrom(s, boundary, i);
      && var at := k - i + 2 * (Breaks(s, boundary, if k < |s| then k + 1 else k) - Breaks(s, boundary, i));
      && (k < |s| ==> 0 <= at < |out| && out[at] == s[k])
      && (k < |s| && Unseparated(s, boundary, k) ==> at >= 2 && out[at - 2] == 13 && out[at - 1] == 10)
      && (k == |s| ==> at >= 0 && |out| == at + (if EndsInCrlf(s) then 0 else 2))
      && (k == |s| && !EndsInCrlf(s) ==> out[at] == 13 && out[at + 1] == 10)
    decreases |s| - i
  {
    hide RepairedFrom, Needs, EndsInCrlf, Unseparated;
    if i == |s| {
      RepairEnd(s, boundary);
    } else {
      NeedsExactly(s, boundary, i);
      RepairStep(s, boundary, i);
      BreaksGrow(s, boundary, i + 1, if k < |s| then k + 1 else k);
      if k > i {
        RepairedFromAt(s, boundary, i + 1, k);
      }
    }
  }

  /**
   * Octet k stands behind one line break for each unseparated boundary up to there, right behind it where it starts one;
   * nothing else is inserted but a line break at the end of content that does not end in one.
   */
  lemma {:induction false} RepairedExactly(s: Bytes, boundary: Option<Bytes>, k: nat)
    ensures var out, ended := Repaired(s, boundary), |s| >= 2 && s[|s| - 2] == 13 && s[|s| - 1] == 10;
      && |out| == |s| + 2 * Breaks(s, boundary, |s|) + (if ended then 0 else 2)
      && (!ended ==> out[|out| - 2] == 13 && out[|out| - 1] == 10)
      && var at := k + 2 * Breaks(s, boundary, k + 1);
      && (k < |s| ==> at < |out| && out[at] == s[k])
      && (k < |s| && Unseparated(s, boundary, k) ==> at >= 2 && out[at - 2] == 13 && out[at - 1] == 10)
  {
    hide RepairedFrom, Unseparated;
    AfterCrlfExactly(s, |s|);
    RepairedFromAt(s, boundary, 0, |s|);
    if k < |s| {
      RepairedFromAt(s, boundary, 0, k);
    }
  }
}
