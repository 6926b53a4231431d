// AES-CBC content encryption with PKCS#7 padding (src/encrypt.rs:38-61, src/decrypt.rs:922-931).
module Padding {
  import opened Octets
  import opened Cbc
  import opened CbcLaws

  const BLOCK: nat := 16

  function PadLength(n: nat): (k: nat)
    ensures 1 <= k <= BLOCK && (n + k) % BLOCK == 0
  {
    BLOCK - n % BLOCK
  }

  function Repeat(b: byte, n: nat): (r: Bytes)
    ensures |r| == n && forall i :: 0 <= i < n ==> r[i] == b
  {
    seq(n, _ => b)
  }

  function Pad(plain: Bytes): Bytes {
    plain + Repeat(PadLength(|plain|) as byte, PadLength(|plain|))
  }

  /** None for a buffer that does not end in n octets of value n, 1 <= n <= 16. */
  function Unpad(d: Bytes): Option<Bytes> {
    if d == [] then None
    else
      var n := d[|d| - 1] as int;
      if n == 0 || n > BLOCK || n > |d| || d[|d| - n..] != Repeat(n as byte, n) then None
      else Some(d[..|d| - n])
  }

  /** Unpadding returns exactly what was padded, and accepts nothing that is not a padding. */
  lemma UnpadExact(d: Bytes, plain: Bytes)
    requires |d| % BLOCK == 0
    ensures Unpad(d) == Some(plain) <==> d == Pad(plain)
  {
    if Unpad(d) == Some(plain) {
      var n := d[|d| - 1] as int;
      assert d == plain + Repeat(n as byte, n);
      assert PadLength(|plain|) == n;
    }
    if d == Pad(plain) {
      var k := PadLength(|plain|);
      assert d[|d| - 1] == k as byte;
      assert d[|d| - k..] == Repeat(k as byte, k) && d[..|d| - k] == plain;
    }
  }

  function EncryptPadded(c: Cipher, iv: Bytes, plain: Bytes): Bytes
    requires c.Invertible() && c.size == BLOCK == |iv|
  {
    WholeIsMultiple(|Pad(plain)|, BLOCK);
    Encrypt(c, iv, Pad(plain))
  }

  /** `decrypt_cbc`: None when the ciphertext is not aligned or the padding is wrong. */
  function DecryptPadded(c: Cipher, iv: Bytes, ct: Bytes): Option<Bytes>
    requires c.Invertible() && c.size == BLOCK == |iv|
  {
    if |ct| % BLOCK != 0 then None
    else
      WholeIsMultiple(|ct|, BLOCK);
      Unpad(Decrypt(c, iv, ct))
  }

  /** Decryption yields a plaintext exactly for its own ciphertext. */
  lemma DecryptPaddedExact(c: Cipher, iv: Bytes, ct: Bytes, plain: Bytes)
    requires c.Invertible() && c.size == BLOCK == |iv|
    ensures DecryptPadded(c, iv, ct) == Some(plain) <==> ct == EncryptPadded(c, iv, plain)
  {
    hide Encrypt, Decrypt, Unpad, Pad, c.Invertible;
    WholeIsMultiple(|Pad(plain)|, BLOCK);
    PadWhole(plain);
    if |ct| % BLOCK == 0 {
      WholeIsMultiple(|ct|, BLOCK);
      EncryptDecrypt(c, iv, ct);
      DecryptEncrypt(c, iv, Pad(plain));
      UnpadExact(Decrypt(c, iv, ct), plain);
    }
  }

  lemma PadWhole(plain: Bytes)
    ensures |Pad(plain)| % BLOCK == 0 && |Pad(plain)| == (|plain| / BLOCK + 1) * BLOCK
  {
  }

  /** `encrypt_aes_cbc`: the buffer is filled, padded behind the plaintext and encrypted in place. */
  method EncryptAesCbc(c: Cipher, iv: Bytes, plaintext: Bytes) returns (buf: array<byte>)
    requires c.Invertible() && c.size == BLOCK == |iv|
    ensures buf[..] == EncryptPadded(c, iv, plaintext)
  {
    hide Encrypt, c.Invertible, Whole;
    var paddedLen := (|plaintext| / 16 + 1) * 16;
    PadWhole(plaintext);
    WholeIsMultiple(paddedLen, BLOCK);
    buf := new byte[paddedLen](_ => 0);
    CopyInto(buf, 0, plaintext);
    CopyInto(buf, |plaintext|, Repeat(PadLength(|plaintext|) as byte, PadLength(|plaintext|)));
    assert buf[..] == Pad(plaintext);
    EncryptInPlace(c, iv, buf);
  }

  /** d is plain with between 1 and 16 octets behind it, each holding their number, to whole blocks of 16. */
  ghost predicate PaddedTo(plain: Bytes, d: Bytes) {
    var k := 16 - |plain| % 16;
    && |d| == |plain| + k && d[..|plain|] == plain
    && forall i :: |plain| <= i < |d| ==> d[i] as int == k
  }

  lemma PadExactly(plain: Bytes, d: Bytes)
    ensures d == Pad(plain) <==> PaddedTo(plain, d)
  {
    var k := 16 - |plain| % 16;
    if PaddedTo(plain, d) {
      assert d == plain + d[|plain|..];
      assert d[|plain|..] == Repeat(k as byte, k);
    }
  }

  /** The ciphertext is the CBC encryption of the padded plaintext, and of nothing else. */
  lemma EncryptPaddedIsCbc(c: Cipher, iv: Bytes, plain: Bytes, ct: Bytes)
    requires c.Invertible() && c.size == 16 == |iv|
    ensures ct == EncryptPadded(c, iv, plain) <==>
      exists d :: PaddedTo(plain, d) && Whole(|d|, 16) && Chained(c, iv, d, ct)
  {
    hide Encrypt, Pad, PaddedTo, Chained, c.Invertible;
    WholeIsMultiple(|Pad(plain)|, BLOCK);
    PadWhole(plain);
    PadExactly(plain, Pad(plain));
    EncryptIsChained(c, iv, Pad(plain), ct);
    forall d | PaddedTo(plain, d) ensures d == Pad(plain) {
      PadExactly(plain, d);
    }
  }
}
