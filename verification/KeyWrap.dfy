// Password-based key wrap of RFC 3211, sections 2.3.1 and 2.3.2
// (src/create_cms.rs:1578-1625 and src/decrypt.rs:485-541).
module KeyWrap {
  import opened Octets
  import opened Cbc
  import opened CbcLaws

  datatype KeyResult = Cek(key: Bytes) | Failed(reason: WrapError)

  datatype WrapError = NotAligned | CekTooLong | CekTooShort | CheckMismatch

  /** Size of the formatted key: at least two blocks, padded to whole blocks of 16. */
  function PaddedLength(cekLen: nat): nat {
    var rounded := (4 + cekLen + 15) / 16 * 16;
    if rounded < 32 then 32 else rounded
  }

  /** `cek.len() as u8` */
  function LengthOctet(n: nat): byte { (n % 0x100) as byte }

  /** The bitwise complement `!b`. */
  function Complement(b: byte): byte { 0xFF - b }

  /** length(1) || check(3) || CEK || padding */
  function Format(cek: Bytes, padding: Bytes): Bytes
    requires |cek| >= 3
  {
    [LengthOctet(|cek|), Complement(cek[0]), Complement(cek[1]), Complement(cek[2])] + cek + padding
  }

  /** The format checks of `decrypt_pwri_cek` on the unwrapped octets. */
  function ParseFormat(d: Bytes): KeyResult
    requires |d| >= 4
  {
    var n := d[0] as int;
    if n + 4 > |d| then Failed(CekTooLong)
    else if n < 3 then Failed(CekTooShort)
    else if d[1..4] != [Complement(d[4]), Complement(d[5]), Complement(d[6])] then Failed(CheckMismatch)
    else Cek(d[4..4 + n])
  }

  /** Accepted are exactly formatted keys of 3 to 255 octets, and the key in the format is returned. */
  lemma ParseFormatExact(d: Bytes, cek: Bytes)
    requires |d| >= 4
    ensures ParseFormat(d) == Cek(cek) <==>
      3 <= |cek| <= 255 && |d| >= 4 + |cek| && d == Format(cek, d[4 + |cek|..])
  {
    if ParseFormat(d) == Cek(cek) {
      var n := d[0] as int;
      FormatOctets(d, n);
    }
    if 3 <= |cek| <= 255 && |d| >= 4 + |cek| && d == Format(cek, d[4 + |cek|..]) {
      FormatParts(cek, d[4 + |cek|..]);
    }
  }

  lemma FormatOctets(d: Bytes, n: nat)
    requires 3 <= n && 4 + n <= |d|
    ensures d == [d[0]] + d[1..4] + d[4..4 + n] + d[4 + n..]
    ensures d[4..4 + n][0] == d[4] && d[4..4 + n][1] == d[5] && d[4..4 + n][2] == d[6]
  {
  }

  lemma FormatParts(cek: Bytes, padding: Bytes)
    requires |cek| >= 3
    ensures var d := Format(cek, padding);
      && |d| == 4 + |cek| + |padding| && d[4 + |cek|..] == padding && d[4..4 + |cek|] == cek
      && d[0] == LengthOctet(|cek|) && d[1..4] == [Complement(d[4]), Complement(d[5]), Complement(d[6])]
  {
  }

  // ---------- The two passes ----------

  function LastBlock(c: Cipher, data: Bytes): Bytes
    requires |data| >= c.size
  {
    data[|data| - c.size..]
  }

  /** Encrypt, then encrypt again with the last block of the first pass as IV. */
  function DoublePass(c: Cipher, iv: Bytes, payload: Bytes): (r: Bytes)
    requires c.Invertible() && |iv| == c.size && Whole(|payload|, c.size) && |payload| >= c.size
    ensures |r| == |payload|
  {
    var first := Encrypt(c, iv, payload);
    Encrypt(c, LastBlock(c, first), first)
  }

  /** Start from the last block, whose decryption is the IV of the others; then undo the first pass. */
  function DoubleUnpass(c: Cipher, iv: Bytes, ct: Bytes): (r: Bytes)
    requires c.Invertible() && |iv| == c.size && Whole(|ct|, c.size) && |ct| >= 2 * c.size
    ensures |r| == |ct|
  {
    var n := |ct|;
    WholeParts(c, ct);
    var lastBlock := Decrypt(c, ct[n - 2 * c.size..n - c.size], ct[n - c.size..]);
    var buf := Decrypt(c, lastBlock, ct[..n - c.size]);
    Decrypt(c, iv, buf + lastBlock)
  }

  lemma WholeMinus(n: nat, size: nat)
    requires 0 < size <= n
    ensures Whole(n - size, size) <==> Whole(n, size)
    ensures Whole(size, size)
  {
    assert Whole(0, size);
  }

  /** All but the last block, and the last block, of an aligned buffer. */
  lemma {:induction false} WholeParts(c: Cipher, data: Bytes)
    requires c.size > 0 && Whole(|data|, c.size) && |data| >= c.size
    ensures Whole(|data| - c.size, c.size) && Whole(c.size, c.size)
    ensures data == data[..|data| - c.size] + LastBlock(c, data)
  {
    WholeMinus(|data|, c.size);
  }

  lemma LastOfAppend(c: Cipher, a: Bytes, b: Bytes)
    requires |b| == c.size
    ensures LastBlock(c, a + b) == b && (a + b)[..|a + b| - c.size] == a
    ensures |a| >= c.size ==> (a + b)[|a + b| - 2 * c.size..|a + b| - c.size] == LastBlock(c, a)
  {
  }

  /** The unwrap undoes the wrap on every aligned buffer of at least two blocks. */
  lemma {:induction false} UnwrapWrap(c: Cipher, iv: Bytes, payload: Bytes)
    requires c.Invertible() && |iv| == c.size && Whole(|payload|, c.size) && |payload| >= 2 * c.size
    ensures DoubleUnpass(c, iv, DoublePass(c, iv, payload)) == payload
  {
    hide *;
    NoBlocks(c, iv);
    var first := Encrypt(c, iv, payload);
    WholeParts(c, first);
    var a, last := first[..|first| - c.size], LastBlock(c, first);
    EncryptAppend(c, last, a, last);
    var cta := Encrypt(c, last, a);
    ChainOfBlocks(c, last, cta);
    var ctLast := Encrypt(c, LastBlock(c, cta), last);
    DoublePassParts(c, iv, payload);
    DoubleUnpassParts(c, iv, cta, ctLast);
    DecryptEncrypt(c, LastBlock(c, cta), last);
    DecryptEncrypt(c, last, a);
    DecryptEncrypt(c, iv, payload);
  }

  lemma ChainOfBlocks(c: Cipher, iv: Bytes, ct: Bytes)
    requires |ct| >= c.size
    ensures Chain(c, iv, ct) == LastBlock(c, ct)
    ensures |LastBlock(c, ct)| == c.size
  {
  }

  lemma {:induction false} DoublePassParts(c: Cipher, iv: Bytes, payload: Bytes)
    requires c.Invertible() && |iv| == c.size && Whole(|payload|, c.size) && |payload| >= c.size
    ensures var first := Encrypt(c, iv, payload);
      |LastBlock(c, first)| == c.size && DoublePass(c, iv, payload) == Encrypt(c, LastBlock(c, first), first)
  {
    hide Encrypt, Whole, c.Invertible;
  }

  lemma {:induction false} DoubleUnpassParts(c: Cipher, iv: Bytes, init: Bytes, ctLast: Bytes)
    requires c.Invertible() && |iv| == |ctLast| == c.size && Whole(|init|, c.size) && |init| >= c.size
    ensures Whole(c.size, c.size) && Whole(|init + ctLast|, c.size) && |LastBlock(c, init)| == c.size
    ensures var last := Decrypt(c, LastBlock(c, init), ctLast);
      && |Decrypt(c, last, init) + last| == |init + ctLast|
      && DoubleUnpass(c, iv, init + ctLast) == Decrypt(c, iv, Decrypt(c, last, init) + last)
  {
    hide Decrypt, Whole;
    NoBlocks(c, iv);
    WholeMinus(c.size, c.size);
    WholeSum(|init|, c.size, c.size);
    LastOfAppend(c, init, ctLast);
  }

  /** The wrap undoes the unwrap, so the transform is a bijection. */
  lemma {:induction false} WrapUnwrap(c: Cipher, iv: Bytes, ct: Bytes)
    requires c.Invertible() && |iv| == c.size && Whole(|ct|, c.size) && |ct| >= 2 * c.size
    ensures DoublePass(c, iv, DoubleUnpass(c, iv, ct)) == ct
  {
    hide *;
    NoBlocks(c, iv);
    WholeParts(c, ct);
    var init, ctLast := ct[..|ct| - c.size], LastBlock(c, ct);
    DoubleUnpassParts(c, iv, init, ctLast);
    var chain := LastBlock(c, init);
    var last := Decrypt(c, chain, ctLast);
    var buf := Decrypt(c, last, init);
    EncryptDecrypt(c, iv, buf + last);
    LastOfAppend(c, buf, last);
    DoublePassParts(c, iv, DoubleUnpass(c, iv, ct));
    EncryptAppend(c, last, buf, last);
    EncryptDecrypt(c, last, init);
    ChainOfBlocks(c, last, init);
    EncryptDecrypt(c, chain, ctLast);
  }

  // ---------- Wrap and unwrap of a key ----------

  function Wrap(c: Cipher, iv: Bytes, cek: Bytes, padding: Bytes): Bytes
    requires c.Invertible() && c.size == 16 == |iv| && |cek| >= 3 && 4 + |cek| + |padding| == PaddedLength(|cek|)
  {
    PaddedLengthWhole(|cek|);
    DoublePass(c, iv, Format(cek, padding))
  }

  lemma PaddedLengthWhole(n: nat)
    ensures Whole(PaddedLength(n), 16) && 32 <= PaddedLength(n) && 4 + n <= PaddedLength(n)
  {
    WholeIsMultiple(PaddedLength(n), 16);
  }

  /** `pwri_unwrap_cek` followed by the checks of `decrypt_pwri_cek`. */
  function Unwrap(c: Cipher, iv: Bytes, ct: Bytes): KeyResult
    requires c.Invertible() && |iv| == c.size && c.size >= 2
  {
    if |ct| < 2 * c.size || |ct| % c.size != 0 then Failed(NotAligned)
    else
      WholeIsMultiple(|ct|, c.size);
      ParseFormat(DoubleUnpass(c, iv, ct))
  }

  /**
   * The round trip returns the key exactly when its length fits the length octet; beyond 255 octets the
   * octet holds the length modulo 256 and another key, or none, comes back.
   */
  lemma RoundTrip(c: Cipher, iv: Bytes, cek: Bytes, padding: Bytes)
    requires c.Invertible() && c.size == 16 == |iv| && |cek| >= 3 && 4 + |cek| + |padding| == PaddedLength(|cek|)
    ensures Unwrap(c, iv, Wrap(c, iv, cek, padding)) == Cek(cek) <==> |cek| <= 255
  {
    hide Encrypt, Decrypt, DoublePass, DoubleUnpass, ParseFormat, c.Invertible;
    var d := Format(cek, padding);
    PaddedLengthWhole(|cek|);
    WholeIsMultiple(|d|, 16);
    UnwrapWrap(c, iv, d);
    ParseFormatExact(d, cek);
    FormatParts(cek, padding);
  }

  /** A key of 256 octets is stored with length 0 and cannot be unwrapped at all. */
  lemma LongKeyIsLost(c: Cipher, iv: Bytes, cek: Bytes, padding: Bytes)
    requires c.Invertible() && c.size == 16 == |iv| && |cek| == 256 && 4 + |cek| + |padding| == PaddedLength(|cek|)
    ensures Unwrap(c, iv, Wrap(c, iv, cek, padding)) == Failed(CekTooShort)
  {
    hide Encrypt, Decrypt, DoublePass, DoubleUnpass, c.Invertible;
    PaddedLengthWhole(|cek|);
    WholeIsMultiple(PaddedLength(|cek|), 16);
    FormatParts(cek, padding);
    UnwrapWrap(c, iv, Format(cek, padding));
  }

  /** What Unwrap accepts is a wrapping of the key it returns, so nothing but honest wrappings is accepted. */
  lemma {:induction false} UnwrapAcceptsWrappings(c: Cipher, iv: Bytes, ct: Bytes, cek: Bytes)
    requires c.Invertible() && c.size == 16 == |iv|
    ensures Unwrap(c, iv, ct) == Cek(cek) <==>
      && 3 <= |cek| <= 255 && |ct| >= 32 && Whole(|ct|, 16) && |ct| >= 4 + |cek|
      && exists padding :: 4 + |cek| + |padding| == |ct| && ct == DoublePass(c, iv, Format(cek, padding))
  {
    hide Encrypt, Decrypt, DoublePass, DoubleUnpass, ParseFormat, c.Invertible;
    WholeIsMultiple(|ct|, 16);
    if |ct| >= 32 && Whole(|ct|, 16) {
      var d := DoubleUnpass(c, iv, ct);
      ParseFormatExact(d, cek);
      WrapUnwrap(c, iv, ct);
      if padding :| 3 <= |cek| <= 255 && 4 + |cek| + |padding| == |ct| && ct == DoublePass(c, iv, Format(cek, padding)) {
        FormatParts(cek, padding);
        UnwrapWrap(c, iv, Format(cek, padding));
      }
    }
  }

  // ---------- The imperative code ----------

  /** The formatted key in a buffer of its own: header, key and, where there is room, padding. */
  method FillPayload(cek: Bytes, padding: Bytes, paddedLen: nat) returns (payload: array<byte>)
    requires |cek| >= 3 && 4 + |cek| + |padding| == paddedLen
    ensures fresh(payload) && payload[..] == Format(cek, padding)
  {
    payload := new byte[paddedLen](_ => 0);
    payload[0] := LengthOctet(|cek|);
    payload[1] := Complement(cek[0]);
    payload[2] := Complement(cek[1]);
    payload[3] := Complement(cek[2]);
    CopyInto(payload, 4, cek);
    if 4 + |cek| < paddedLen {
      CopyInto(payload, 4 + |cek|, padding);
    }
  }


  /** `rfc3211_wrap_cek`; `padding` stands for the random octets, c for the cipher of the given KEK. */
  method WrapCek(c: Cipher, iv: Bytes, cek: Bytes, padding: Bytes) returns (payload: array<byte>)
    requires c.Invertible() && c.size == 16 == |iv| && |cek| >= 3 && 4 + |cek| + |padding| == PaddedLength(|cek|)
    ensures payload[..] == Wrap(c, iv, cek, padding)
  {
    hide Encrypt, Whole, c.Invertible;
    var blockSize := 16;
    var minLen := 4 + |cek|;
    var paddedLen := (minLen + blockSize - 1) / blockSize * blockSize;
    if paddedLen < 2 * blockSize {
      paddedLen := 2 * blockSize;
    }
    PaddedLengthWhole(|cek|);
    payload := FillPayload(cek, padding, paddedLen);
    EncryptInPlace(c, iv, payload);
    var pass2Iv := payload[paddedLen - blockSize..];
    EncryptInPlace(c, pass2Iv, payload);
  }

  /** `pwri_unwrap_cek` */
  method UnwrapCek(c: Cipher, iv: Bytes, ct: Bytes) returns (r: KeyResult)
    requires c.Invertible() && |iv| == c.size && c.size >= 2
    ensures r == Unwrap(c, iv, ct)
  {
    hide Encrypt, Decrypt, Whole, ParseFormat, c.Invertible;
    var bs := c.size;
    if |ct| < 2 * bs || |ct| % bs != 0 {
      return Failed(NotAligned);
    }
    WholeIsMultiple(|ct|, bs);
    WholeParts(c, ct);
    var n := |ct| / bs;
    Blocks(n, bs, |ct|);
    var step1Iv := ct[(n - 2) * bs..(n - 1) * bs];
    var lastBlock := Decrypt(c, step1Iv, ct[(n - 1) * bs..]);
    var buf := Decrypt(c, lastBlock, ct[..(n - 1) * bs]);
    buf := buf + lastBlock;
    var plain := Decrypt(c, iv, buf);
    return ParseFormat(plain);
  }

  lemma Blocks(n: nat, bs: nat, len: nat)
    requires bs > 0 && n == len / bs && len % bs == 0 && len >= 2 * bs
    ensures n >= 2 && n * bs == len && (n - 1) * bs == len - bs && (n - 2) * bs == len - 2 * bs
  {
    assert n * bs == len;
    Distribute(n, 1, bs);
    Distribute(n, 2, bs);
    if n < 2 {
      Distribute(2, n, bs);
      MulAtLeast(2 - n, bs);
    }
  }

  // ---------- The wrapping, octet by octet ----------

  /** The least multiple of 16 that holds the formatted key, and at least two blocks. */
  lemma PaddedLengthExactly(n: nat, p: nat)
    ensures p == PaddedLength(n) <==> p % 16 == 0 && 32 <= p && 4 + n <= p && (p == 32 || p < 4 + n + 16)
  {
  }

  /** Length octet, the complements of the first three key octets, key, padding (RFC 3211, section 2.3.1). */
  ghost predicate Formatted(cek: Bytes, padding: Bytes, d: Bytes)
    requires |cek| >= 3
  {
    && |d| == 4 + |cek| + |padding| && d[0] as int == |cek| % 256
    && (forall i :: 0 <= i < 3 ==> d[1 + i] as int + cek[i] as int == 255)
    && d[4..4 + |cek|] == cek && d[4 + |cek|..] == padding
  }

  lemma FormatExactly(cek: Bytes, padding: Bytes, d: Bytes)
    requires |cek| >= 3
    ensures d == Format(cek, padding) <==> Formatted(cek, padding, d)
  {
    if Formatted(cek, padding, d) {
      assert d[1 + 0] == d[1] && d[1 + 1] == d[2] && d[1 + 2] == d[3];
      assert d == [d[0], d[1], d[2], d[3]] + d[4..4 + |cek|] + d[4 + |cek|..];
    }
  }

  /** Two CBC passes over the formatted key; the second starts from the last block of the first. */
  lemma {:induction false} WrapIsDoubleCbc(c: Cipher, iv: Bytes, cek: Bytes, padding: Bytes, ct: Bytes)
    requires c.Invertible() && c.size == 16 == |iv| && |cek| >= 3 && 4 + |cek| + |padding| == PaddedLength(|cek|)
    ensures ct == Wrap(c, iv, cek, padding) <==>
      exists d, e :: Formatted(cek, padding, d) && Whole(|d|, 16) && Chained(c, iv, d, e)
        && 32 <= |e| && Whole(|e|, 16) && Chained(c, e[|e| - 16..], e, ct)
  {
    hide Encrypt, Formatted, Format, Chained, PaddedLength, c.Invertible;
    PaddedLengthWhole(|cek|);
    FormatParts(cek, padding);
    var d0 := Format(cek, padding);
    FormatExactly(cek, padding, d0);
    var e0 := Encrypt(c, iv, d0);
    EncryptIsChained(c, iv, d0, e0);
    EncryptIsChained(c, e0[|e0| - 16..], e0, ct);
    forall d, e | Formatted(cek, padding, d) && Whole(|d|, 16) && Chained(c, iv, d, e) ensures d == d0 && e == e0 {
      FormatExactly(cek, padding, d);
      EncryptIsChained(c, iv, d, e);
    }
  }
}
