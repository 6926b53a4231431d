// Every octet of a rewritten body: base64 with its alphabet and padding (RFC 4648, section 4), in lines of 76.
module Base64Laws {
  import opened Octets
  import opened Splicing

  const UPPER := "ABCDEFGHIJKLMNOPQRSTUVWXYZ"
  const LOWER := "abcdefghijklmnopqrstuvwxyz"
  const DIGITS := "0123456789"
  const ALPHABET := UPPER + LOWER + DIGITS + "+/"

  lemma AlphabetIs(k: nat)
    requires k < 64
    ensures |ALPHABET| == 64
    ensures ALPHABET[k] ==
      if k < 26 then UPPER[k] else if k < 52 then LOWER[k - 26] else if k < 62 then DIGITS[k - 52] else "+/"[k - 62]
  {
  }

  /** The alphabet of section 4 is the one the encoder writes. */
  lemma SymbolIsLetter(k: nat)
    requires k < 64
    ensures |ALPHABET| == 64 && ALPHABET[k] as int == Symbol(k) as int
  {
    hide ALPHABET;
    AlphabetIs(k);
  }

  predicate IsLetter(c: byte, k: nat) { k < |ALPHABET| && c as int == ALPHABET[k] as int }

  function At(s: Bytes, i: nat): nat { if i < |s| then s[i] as nat else 0 }

  /** The 24 bits of a group, with zeros where the input has ended. */
  function Bits(s: Bytes, i: nat): (n: nat)
    ensures n < 0x100_0000
  {
    At(s, 3 * i) * 0x1_0000 + At(s, 3 * i + 1) * 0x100 + At(s, 3 * i + 2)
  }

  /** The i-th group of four: six bits each, high bits first, with `=` for what has no bits of the input. */
  ghost predicate GroupIs(s: Bytes, e: Bytes, i: nat) {
    && 4 * i + 4 <= |e|
    && IsLetter(e[4 * i], Bits(s, i) / 0x4_0000)
    && IsLetter(e[4 * i + 1], Bits(s, i) / 0x1000 % 64)
    && (if 3 * i + 1 < |s| then IsLetter(e[4 * i + 2], Bits(s, i) / 64 % 64) else e[4 * i + 2] == 0x3D)
    && (if 3 * i + 2 < |s| then IsLetter(e[4 * i + 3], Bits(s, i) % 64) else e[4 * i + 3] == 0x3D)
  }

  lemma Quotient(n: nat, d: nat, q: nat, r: nat)
    requires n == q * d + r && r < d
    ensures n / d == q && n % d == r
  {
    var more: int := n / d - q;
    assert more * d == r - n % d;
    assert more >= 1 ==> more * d >= d;
    assert more <= -1 ==> more * d + d <= 0;
  }

  lemma Sextets(p: nat, q: nat, r: nat, t: nat)
    requires p < 64 && q < 64 && r < 64 && t < 64
    ensures var n := p * 0x4_0000 + q * 0x1000 + r * 64 + t;
      n / 0x4_0000 == p && n / 0x1000 % 64 == q && n / 64 % 64 == r && n % 64 == t
  {
    var n := p * 0x4_0000 + q * 0x1000 + r * 64 + t;
    Quotient(n, 0x4_0000, p, q * 0x1000 + r * 64 + t);
    Quotient(n, 0x1000, p * 64 + q, r * 64 + t);
    Quotient(n, 64, p * 0x1000 + q * 64 + r, t);
    Quotient(p * 64 + q, 64, p, q);
    Quotient(p * 0x1000 + q * 64 + r, 64, p * 64 + q, r);
  }

  lemma Regroup(a: nat, b: nat, c: nat)
    requires a < 0x100 && b < 0x100 && c < 0x100
    ensures a * 0x1_0000 + b * 0x100 + c
         == a / 4 * 0x4_0000 + (a % 4 * 16 + b / 16) * 0x1000 + (b % 16 * 4 + c / 64) * 64 + c % 64
  {
  }

  lemma {:induction false} FirstSymbols(s: Bytes)
    requires s != []
    ensures var a, b, c, e := At(s, 0), At(s, 1), At(s, 2), Encode(s);
      && a < 0x100 && b < 0x100 && c < 0x100 && |e| >= 4
      && e[0] == Symbol(a / 4) && e[1] == Symbol(a % 4 * 16 + b / 16)
      && e[2] == (if |s| > 1 then Symbol(b % 16 * 4 + c / 64) else 0x3D)
      && e[3] == (if |s| > 2 then Symbol(c % 64) else 0x3D)
  {
    hide Symbol;
  }

  lemma {:induction false} FirstGroup(s: Bytes)
    requires s != []
    ensures GroupIs(s, Encode(s), 0)
  {
    hide Symbol, ALPHABET, Encode, At;
    FirstSymbols(s);
    var a, b, c := At(s, 0), At(s, 1), At(s, 2);
    var p, q, r, t := a / 4, a % 4 * 16 + b / 16, b % 16 * 4 + c / 64, c % 64;
    Regroup(a, b, c);
    Sextets(p, q, r, t);
    SymbolIsLetter(p);
    SymbolIsLetter(q);
    SymbolIsLetter(r);
    SymbolIsLetter(t);
  }

  /** Base64, group by group. */
  lemma {:induction false} EncodeExactly(s: Bytes, i: nat)
    ensures |Encode(s)| == (|s| + 2) / 3 * 4
    ensures 3 * i < |s| ==> GroupIs(s, Encode(s), i)
  {
    hide IsLetter, Symbol, Group;
    if s != [] {
      FirstGroup(s);
      if |s| > 3 {
        EncodeExactly(s[3..], if i == 0 then 0 else i - 1);
        if i > 0 && 3 * i < |s| {
          GroupBehind(s, i);
        }
      }
    }
  }

  lemma {:induction false} GroupBehind(s: Bytes, i: nat)
    requires |s| > 3 && i > 0 && GroupIs(s[3..], Encode(s[3..]), i - 1)
    ensures GroupIs(s, Encode(s), i)
  {
    hide IsLetter, Symbol, Group, Bits;
    var g := Group(s[0] as int, s[1] as int, s[2] as int);
    assert Bits(s, i) == Bits(s[3..], i - 1) by { BitsBehind(s, i); }
    assert Encode(s) == g + Encode(s[3..]) && |g| == 4;
  }

  lemma BitsBehind(s: Bytes, i: nat)
    requires |s| > 3 && i > 0
    ensures Bits(s, i) == Bits(s[3..], i - 1)
  {
    assert forall j: nat :: At(s[3..], j) == At(s, j + 3);
  }

  // ---------- Lines ----------

  /** Where octet d of a line-wrapped text stands: two more octets for each line before its own. */
  function Shifted(d: nat): nat { d + 2 * (d / 76) }

  lemma ShiftedLine(d: nat)
    ensures d < 76 ==> Shifted(d) == d && (d % 76 == 0 ==> d == 0)
    ensures d >= 76 ==> Shifted(d) == 78 + Shifted(d - 76) && d % 76 == (d - 76) % 76
  {
  }

  lemma LineOf(s: Bytes, i: nat)
    requires i < |s|
    ensures var end := if i + 76 < |s| then i + 76 else |s|;
      WrapFrom(s, i) == (if i > 0 then [13, 10] else []) + (s[i..end] + WrapFrom(s, end))
  {
    hide WrapFrom;
    WrapLine(s, i);
  }

  lemma {:induction false} WrapFromAt(s: Bytes, i: nat, k: nat)
    requires i <= k < |s|
    ensures var w, at := WrapFrom(s, i), (if i > 0 then 2 else 0) + Shifted(k - i);
      && at < |w| && w[at] == s[k]
      && (k > 0 && (k - i) % 76 == 0 ==> at >= 2 && w[at - 2] == 13 && w[at - 1] == 10)
    decreases |s| - i
  {
    hide *;
    LineOf(s, i);
    ShiftedLine(k - i);
    if k - i >= 76 {
      WrapFromAt(s, i + 76, k);
    }
  }

  lemma {:induction false} WrapLength(s: Bytes, i: nat)
    requires i < |s|
    ensures |WrapFrom(s, i)| == (if i > 0 then 2 else 0) + Shifted(|s| - i - 1) + 1
    decreases |s| - i
  {
    hide *;
    LineOf(s, i);
    ShiftedLine(|s| - i - 1);
    if i + 76 < |s| {
      WrapLength(s, i + 76);
    } else {
      WrapEnd(s);
    }
  }

  lemma {:induction false} WrapEnd(s: Bytes)
    ensures WrapFrom(s, |s|) == []
  {
  }

  /** Octet k stands behind one CRLF for every 76 octets before it; a last CRLF closes the text. */
  lemma {:induction false} WrappedExactly(s: Bytes, k: nat)
    ensures |Wrapped(s)| == (if s == [] then 0 else Shifted(|s| - 1) + 1) + 2
    ensures Wrapped(s)[|Wrapped(s)| - 2..] == [13, 10]
    ensures k < |s| ==> Shifted(k) < |Wrapped(s)| && Wrapped(s)[Shifted(k)] == s[k]
    ensures 0 < k < |s| && k % 76 == 0 ==> Wrapped(s)[Shifted(k) - 2] == 13 && Wrapped(s)[Shifted(k) - 1] == 10
  {
    hide WrapFrom, Shifted;
    WrapEnd(s);
    var w := WrapFrom(s, 0);
    assert Wrapped(s) == w + [13, 10];
    if s != [] {
      WrapLength(s, 0);
    }
    if k < |s| {
      WrapFromAt(s, 0, k);
    }
  }
}
