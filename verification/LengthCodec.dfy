// The length octets of src/utils.rs: `decode_ber_definite_length` and `encode_der_length`.
module LengthCodec {
  import opened Octets

  /** The largest `usize` of a target: 32 bits wide for wasm32, 64 bits for native builds. */
  type UsizeMax = n: nat | n == 0xFFFF_FFFF || n == 0xFFFF_FFFF_FFFF_FFFF witness 0xFFFF_FFFF

  /** `usize::MAX`; nothing below depends on which of the two it is. */
  const USIZE_MAX: UsizeMax

  /** Big-endian value of a string of octets. */
  function Value(s: Bytes): nat {
    if s == [] then 0 else Value(s[..|s| - 1]) * 0x100 + s[|s| - 1] as int
  }

  /** Big-endian octets of n without leading zeros. */
  function Digits(n: nat): Bytes {
    if n == 0 then [] else Digits(n / 0x100) + [(n % 0x100) as byte]
  }

  lemma {:induction false} ValueOfDigits(n: nat)
    ensures Value(Digits(n)) == n
    ensures n > 0 ==> Digits(n) != [] && Digits(n)[0] > 0
  {
    if n > 0 {
      ValueOfDigits(n / 0x100);
      assert Digits(n)[..|Digits(n)| - 1] == Digits(n / 0x100);
    }
  }

  function Pow256(k: nat): (p: nat)
    ensures p > 0
  {
    if k == 0 then 1 else 0x100 * Pow256(k - 1)
  }

  lemma {:induction false} ValueBelow(s: Bytes)
    ensures Value(s) < Pow256(|s|)
  {
    if s != [] {
      ValueBelow(s[..|s| - 1]);
    }
  }

  lemma {:induction false} DigitsShortest(n: nat, k: nat)
    requires n < Pow256(k)
    ensures |Digits(n)| <= k
  {
    if n > 0 {
      DigitsShortest(n / 0x100, k - 1);
    }
  }

  lemma {:induction false} DigitsOfUsize(n: nat)
    requires n <= USIZE_MAX
    ensures |Digits(n)| <= 8
  {
    assert Pow256(8) == 0x1_0000_0000_0000_0000 by {
      assert Pow256(4) == 0x1_0000_0000;
      assert Pow256(8) == 0x1_0000_0000 * 0x1_0000_0000;
    }
    DigitsShortest(n, 8);
  }

  // ---------- The two definite forms ----------

  /** `len` is a definite-form encoding of n that fits the machine word (X.690 clause 8.1.3). */
  predicate IsLength(len: Bytes, n: nat) {
    || (|len| == 1 && n < 0x80 && len[0] as int == n)
    || (2 <= |len| <= 0x80 && len[0] as int == 0x7F + |len| && Value(len[1..]) == n && n <= USIZE_MAX)
  }

  /** Value and size of the length octets at the head of s; None where the source reports an error. */
  function ReadLength(s: Bytes): (r: Option<(nat, nat)>)
    ensures r.Some? ==> 0 < r.value.1 <= |s| && IsLength(s[..r.value.1], r.value.0)
  {
    if s == [] then None
    else if s[0] < 0x80 then Some((s[0] as int, 1))
    else
      var k := s[0] as int - 0x80;
      if k == 0 || k + 1 > |s| then None
      else
        assert s[..k + 1][1..] == s[1..k + 1];
        if Value(s[1..k + 1]) > USIZE_MAX then None else Some((Value(s[1..k + 1]), k + 1))
  }

  /** Exactness: s is read with value n and size k iff its first k octets are a definite length for n. */
  lemma ReadLengthExact(s: Bytes, n: nat, k: nat)
    requires k <= |s|
    ensures ReadLength(s) == Some((n, k)) <==> IsLength(s[..k], n)
  {
    if 0 < k {
      assert s[..k][0] == s[0];
      assert s[..k][1..] == s[1..k];
    }
  }

  /** The octets `encode_der_length` pushes; `0x80 | bytes as u8` is written out. */
  function EncodeLength(n: nat): Bytes {
    if n < 0x80 then [n as byte] else [(0x80 + |Digits(n)| % 0x80) as byte] + Digits(n)
  }

  /** Decoding inverts encoding, and no definite form of n is shorter. */
  lemma EncodeLengthShortest(n: nat)
    requires n <= USIZE_MAX
    ensures IsLength(EncodeLength(n), n)
    ensures |EncodeLength(n)| <= 9
    ensures forall len :: IsLength(len, n) ==> |EncodeLength(n)| <= |len|
  {
    hide Value, Digits;
    EncodedIsLength(n);
    forall len | IsLength(len, n) ensures |EncodeLength(n)| <= |len| {
      if |len| > 1 {
        ValueBelow(len[1..]);
        DigitsShortest(n, |len| - 1);
      }
    }
  }

  lemma {:induction false} EncodedIsLength(n: nat)
    requires n <= USIZE_MAX
    ensures IsLength(EncodeLength(n), n) && |EncodeLength(n)| <= 9
    ensures n >= 0x80 ==> |EncodeLength(n)| == 1 + |Digits(n)|
  {
    ValueOfDigits(n);
    DigitsOfUsize(n);
    hide Value, Digits, IsLength;
    if n < 0x80 {
      ShortLength(n);
    } else {
      LongLength(Digits(n), n);
    }
  }

  lemma ShortLength(n: nat)
    requires n < 0x80
    ensures IsLength([n as byte], n)
  {
  }

  lemma {:induction false} LongLength(d: Bytes, n: nat)
    requires 1 <= |d| <= 8 && Value(d) == n <= USIZE_MAX
    ensures IsLength([(0x80 + |d| % 0x80) as byte] + d, n)
  {
    hide Value;
    assert ([(0x80 + |d| % 0x80) as byte] + d)[1..] == d;
  }

  /** Content that grows at most threefold takes at most two length octets more. */
  lemma LengthGrows(len: Bytes, n: nat, m: nat)
    requires IsLength(len, n) && m <= 3 * n + 1
    ensures |EncodeLength(m)| <= |len| + 2
  {
    var k := |len| - 1;
    if k > 0 {
      ValueBelow(len[1..]);
    }
    assert Pow256(k + 2) == 0x1_0000 * Pow256(k) by {
      assert Pow256(k + 2) == 0x100 * Pow256(k + 1);
    }
    assert Pow256(0) == 1;
    DigitsShortest(m, k + 2);
  }

  // ---------- decode_ber_definite_length (src/utils.rs:183-200) ----------

  datatype LengthError = ZeroLengthLongForm | TruncatedLength | LengthOverflow

  /** Which error the length octets at the head of s give. */
  function LengthFault(s: Bytes): Option<LengthError>
    requires s != []
  {
    var k := s[0] as int - 0x80;
    if s[0] < 0x80 then None
    else if k == 0 then Some(ZeroLengthLongForm)
    else if k + 1 > |s| then Some(TruncatedLength)
    else if Value(s[1..k + 1]) > USIZE_MAX then Some(LengthOverflow)
    else None
  }

  lemma {:induction false} ValueMonotone(s: Bytes, i: nat)
    requires i <= |s|
    ensures Value(s[..i]) <= Value(s)
    decreases |s|
  {
    if i == |s| {
      assert s[..i] == s;
    } else {
      ValueMonotone(s[..|s| - 1], i);
      assert s[..|s| - 1][..i] == s[..i];
    }
  }

  /** The checked accumulation loop fails exactly when the value of the whole field overflows. */
  method DecodeBerDefiniteLength(first: byte, rest: Bytes) returns (r: Result<(nat, nat), LengthError>)
    ensures r.Ok? <==> ReadLength([first] + rest).Some?
    ensures r.Ok? ==> ReadLength([first] + rest) == Some((r.value.0, r.value.1 + 1))
    ensures LengthFault([first] + rest) == match r case Ok(_) => None case Err(e) => Some(e)
  {
    if first < 0x80 {
      return Ok((first as int, 0));
    }
    var numBytes := first as int - 0x80;
    if numBytes == 0 {
      return Err(ZeroLengthLongForm);
    }
    if numBytes > |rest| {
      return Err(TruncatedLength);
    }
    var field := rest[..numBytes];
    assert ([first] + rest)[1..numBytes + 1] == field;
    var length: nat := 0;
    var i := 0;
    while i < numBytes
      invariant 0 <= i <= numBytes
      invariant length == Value(field[..i]) <= USIZE_MAX
    {
      assert field[..i + 1][..i] == field[..i];
      ValueMonotone(field, i + 1);
      // checked_mul(256), then checked_add(b)
      if length * 0x100 > USIZE_MAX || length * 0x100 + field[i] as int > USIZE_MAX {
        return Err(LengthOverflow);
      }
      length := length * 0x100 + field[i] as int;
      i := i + 1;
    }
    assert field[..numBytes] == field;
    return Ok((length, numBytes));
  }

  // ---------- encode_der_length (src/utils.rs:202-212) ----------

  /** `usize::BITS - leading_zeros(n)`. */
  function BitLength(n: nat): nat {
    if n == 0 then 0 else 1 + BitLength(n / 2)
  }

  lemma {:induction false} BitLengthShift2(n: nat)
    requires n >= 4
    ensures BitLength(n) == 2 + BitLength(n / 4)
  {
    assert BitLength(n / 2) == 1 + BitLength(n / 2 / 2);
    assert n / 2 / 2 == n / 4;
  }

  lemma {:induction false} BitLengthShift8(n: nat)
    requires n >= 0x100
    ensures BitLength(n) == 8 + BitLength(n / 0x100)
  {
    BitLengthShift2(n);
    BitLengthShift2(n / 4);
    BitLengthShift2(n / 4 / 4);
    BitLengthShift2(n / 4 / 4 / 4);
    assert n / 4 / 4 / 4 / 4 == n / 0x100;
  }

  lemma {:induction false} BytesNeeded(n: nat)
    requires n > 0
    ensures (BitLength(n) + 7) / 8 == |Digits(n)|
  {
    if n >= 0x100 {
      BytesNeeded(n / 0x100);
      BitLengthShift8(n);
    } else {
      assert Digits(n / 0x100) == [];
      assert 1 <= BitLength(n) <= 8 by { SmallBitLength(n, 8); }
    }
  }

  lemma {:induction false} SmallBitLength(n: nat, k: nat)
    requires n < Pow2(k)
    ensures BitLength(n) <= k
  {
    if n > 0 {
      SmallBitLength(n / 2, k - 1);
    }
  }

  /** n >> (8 * i) */
  function ShiftRight8(n: nat, i: nat): nat {
    if i == 0 then n else ShiftRight8(n, i - 1) / 0x100
  }

  lemma {:induction false} DigitsByShift(n: nat, i: nat)
    requires i < |Digits(n)|
    ensures Digits(n)[|Digits(n)| - 1 - i] == (ShiftRight8(n, i) % 0x100) as byte
  {
    ShiftInner(n, i);
    if i > 0 {
      DigitsByShift(n / 0x100, i - 1);
    }
  }

  lemma {:induction false} ShiftInner(n: nat, i: nat)
    ensures i > 0 ==> ShiftRight8(n, i) == ShiftRight8(n / 0x100, i - 1)
  {
    if i > 1 {
      ShiftInner(n, i - 1);
    }
  }

  /** The k leading digits of n. */
  function LeadingDigits(n: nat, k: nat): Bytes
    requires k <= |Digits(n)|
  {
    Digits(n)[..k]
  }

  /** Pushing the next digit extends the leading digits already written. */
  lemma {:induction false} PushDigit(out: Bytes, head: Bytes, n: nat, i: nat)
    requires i < |Digits(n)| && out == head + LeadingDigits(n, |Digits(n)| - i - 1)
    ensures out + [(ShiftRight8(n, i) % 0x100) as byte] == head + LeadingDigits(n, |Digits(n)| - i)
  {
    DigitsByShift(n, i);
    var k := |Digits(n)| - i;
    assert LeadingDigits(n, k - 1) + [Digits(n)[k - 1]] == LeadingDigits(n, k);
  }

  /** The loop of `encode_der_length`, from the most significant octet down. */
  method PushDigits(out0: Bytes, n: nat, bytesNeeded: nat) returns (out: Bytes)
    requires bytesNeeded == |Digits(n)|
    ensures out == out0 + Digits(n)
  {
    out := out0;
    var i := bytesNeeded;
    while i > 0
      invariant 0 <= i <= bytesNeeded
      invariant out == out0 + LeadingDigits(n, bytesNeeded - i)
    {
      i := i - 1;
      PushDigit(out, out0, n, i);
      out := out + [(ShiftRight8(n, i) % 0x100) as byte];
    }
  }

  method EncodeDerLength(out0: Bytes, length: nat) returns (out: Bytes)
    ensures out == out0 + EncodeLength(length)
  {
    if length < 0x80 {
      return out0 + [length as byte];
    }
    var bytesNeeded := (BitLength(length) + 7) / 8;
    BytesNeeded(length);
    out := out0 + [(0x80 + bytesNeeded % 0x80) as byte];
    out := PushDigits(out, length, bytesNeeded);
  }
}
