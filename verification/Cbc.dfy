// Cipher block chaining over any invertible block cipher, as the cbc crate provides it.
module Cbc {

  import opened Arrangements
  import opened Octets

  /** A block cipher under a fixed key. */
  datatype Cipher = Cipher(size: nat, enc: Bytes -> Bytes, dec: Bytes -> Bytes) {
    /** Both directions map blocks to blocks and undo each other. */
    ghost predicate Invertible() {
      && size > 0
      && (forall b :: |b| == size ==> |enc(b)| == size && dec(enc(b)) == b)
      && (forall b :: |b| == size ==> |dec(b)| == size && enc(dec(b)) == b)
    }
  }

  /** Exclusive or of the k low bits, least significant bit first. */
  function XorBits(x: nat, y: nat, k: nat): (r: nat)
    ensures r < Pow2(k)
  {
    if k == 0 then 0 else (x + y) % 2 + 2 * XorBits(x / 2, y / 2, k - 1)
  }

  lemma {:induction false} XorBitsTwice(x: nat, y: nat, k: nat)
    requires x < Pow2(k)
    ensures XorBits(XorBits(x, y, k), y, k) == x
  {
    hide *;
    XorBitsEnds(x, y, k);
    if k > 0 {
      var rest := XorBits(x / 2, y / 2, k - 1);
      XorBitsTwice(x / 2, y / 2, k - 1);
      LowBitTwice(x, y, rest);
      XorBitsStep(x, y, k);
      XorBitsStep((x + y) % 2 + 2 * rest, y, k);
    }
  }

  lemma XorBitsEnds(x: nat, y: nat, k: nat)
    requires x < Pow2(k)
    ensures k == 0 ==> x == 0 && XorBits(XorBits(x, y, 0), y, 0) == 0
    ensures k > 0 ==> x / 2 < Pow2(k - 1)
  {
  }

  lemma XorBitsStep(x: nat, y: nat, k: nat)
    requires k > 0
    ensures XorBits(x, y, k) == (x + y) % 2 + 2 * XorBits(x / 2, y / 2, k - 1)
  {
  }

  lemma LowBitTwice(x: nat, y: nat, rest: nat)
    ensures var low := (x + y) % 2 + 2 * rest;
      low / 2 == rest && x == (low + y) % 2 + 2 * (x / 2)
  {
  }

  function XorOctet(x: byte, y: byte): byte {
    assert Pow2(8) == 0x100;
    XorBits(x as int, y as int, 8) as byte
  }

  function Xor(a: Bytes, b: Bytes): (r: Bytes)
    requires |a| == |b|
    ensures |r| == |a|
  {
    seq(|a|, i requires 0 <= i < |a| => XorOctet(a[i], b[i]))
  }

  lemma XorTwice(a: Bytes, b: Bytes)
    requires |a| == |b|
    ensures Xor(Xor(a, b), b) == a
  {
    forall i | 0 <= i < |a| ensures Xor(Xor(a, b), b)[i] == a[i] {
      assert Pow2(8) == 0x100;
      XorBitsTwice(a[i] as int, b[i] as int, 8);
    }
  }

  /** n octets are whole blocks of the given size. */
  predicate Whole(n: nat, size: nat)
    requires size > 0
  {
    n == 0 || (n >= size && Whole(n - size, size))
  }

  lemma {:induction false} WholeIsMultiple(n: nat, size: nat)
    requires size > 0
    ensures Whole(n, size) <==> n % size == 0
  {
    if n >= size {
      WholeIsMultiple(n - size, size);
      ModStep(n, size);
    } else if n > 0 {
      SmallMod(n, size);
    }
  }

  lemma SmallMod(n: nat, size: nat)
    requires 0 < n < size
    ensures n % size == n
  {
  }

  lemma ModStep(n: nat, size: nat)
    requires 0 < size <= n
    ensures (n - size) % size == n % size
  {
    var q, r := (n - size) / size, (n - size) % size;
    assert n == (q + 1) * size + r;
    QuotientUnique(n, size, q + 1, r);
  }

  lemma MulAtLeast(x: int, size: nat)
    requires x >= 1 && size > 0
    ensures x * size >= size
  {
  }

  lemma Distribute(x: int, y: int, size: int)
    ensures (x - y) * size == x * size - y * size
  {
  }

  lemma QuotientUnique(n: nat, size: nat, q: nat, r: nat)
    requires 0 < size && r < size && n == q * size + r
    ensures n % size == r
  {
    var q', r' := n / size, n % size;
    assert n == q' * size + r';
    Distribute(q, q', size);
    Distribute(q', q, size);
    if q > q' {
      MulAtLeast(q - q', size);
    } else if q < q' {
      MulAtLeast(q' - q, size);
    }
  }

  lemma {:induction false} WholeSum(a: nat, b: nat, size: nat)
    requires size > 0 && Whole(a, size)
    ensures Whole(a + b, size) <==> Whole(b, size)
  {
    if a > 0 {
      WholeSum(a - size, b, size);
    }
  }

  /** NoPadding encryption of a block-aligned buffer. */
  function Encrypt(c: Cipher, iv: Bytes, data: Bytes): (r: Bytes)
    requires c.Invertible() && |iv| == c.size && Whole(|data|, c.size)
    ensures |r| == |data|
    decreases |data|
  {
    if data == [] then []
    else
      var block := c.enc(Xor(data[..c.size], iv));
      block + Encrypt(c, block, data[c.size..])
  }

  /** NoPadding decryption of a block-aligned buffer. */
  function Decrypt(c: Cipher, iv: Bytes, data: Bytes): (r: Bytes)
    requires c.Invertible() && |iv| == c.size && Whole(|data|, c.size)
    ensures |r| == |data|
    decreases |data|
  {
    if data == [] then []
    else Xor(c.dec(data[..c.size]), iv) + Decrypt(c, data[..c.size], data[c.size..])
  }

  lemma CipherFacts(c: Cipher, b: Bytes)
    requires c.Invertible() && |b| == c.size
    ensures c.size > 0 && |c.enc(b)| == |c.dec(b)| == c.size && c.dec(c.enc(b)) == b && c.enc(c.dec(b)) == b
  {
  }

  /** A buffer of whole blocks is empty or a block and whole blocks. */
  lemma {:induction false} FirstBlock(c: Cipher, data: Bytes)
    requires c.Invertible() && Whole(|data|, c.size) && data != []
    ensures |data| >= c.size > 0 && Whole(|data[c.size..]|, c.size)
    ensures |data[..c.size]| == c.size && data == data[..c.size] + data[c.size..]
  {
  }

  lemma {:induction false} EncryptCons(c: Cipher, iv: Bytes, head: Bytes, tail: Bytes)
    requires c.Invertible() && |iv| == |head| == c.size && Whole(|tail|, c.size)
    ensures Whole(|head + tail|, c.size) && |c.enc(Xor(head, iv))| == c.size
    ensures Encrypt(c, iv, head + tail) == c.enc(Xor(head, iv)) + Encrypt(c, c.enc(Xor(head, iv)), tail)
  {
    assert (head + tail)[..c.size] == head && (head + tail)[c.size..] == tail;
  }

  lemma {:induction false} DecryptCons(c: Cipher, iv: Bytes, head: Bytes, tail: Bytes)
    requires c.Invertible() && |iv| == |head| == c.size && Whole(|tail|, c.size)
    ensures Whole(|head + tail|, c.size) && |c.dec(head)| == c.size
    ensures Decrypt(c, iv, head + tail) == Xor(c.dec(head), iv) + Decrypt(c, head, tail)
  {
    assert (head + tail)[..c.size] == head && (head + tail)[c.size..] == tail;
  }

  lemma {:induction false} NoBlocks(c: Cipher, iv: Bytes)
    requires c.Invertible() && |iv| == c.size
    ensures c.size > 0 && Whole(0, c.size) && Encrypt(c, iv, []) == [] && Decrypt(c, iv, []) == [] && Chain(c, iv, []) == iv
  {
  }

  lemma {:induction false} DecryptEncrypt(c: Cipher, iv: Bytes, data: Bytes)
    requires c.Invertible() && |iv| == c.size && Whole(|data|, c.size)
    ensures Decrypt(c, iv, Encrypt(c, iv, data)) == data
    decreases |data|
  {
    hide *;
    if data == [] {
      NoBlocks(c, iv);
    } else {
      FirstBlock(c, data);
      var plain, tail := data[..c.size], data[c.size..];
      var mixed := Xor(plain, iv);
      CipherFacts(c, mixed);
      EncryptCons(c, iv, plain, tail);
      DecryptEncrypt(c, c.enc(mixed), tail);
      DecryptCons(c, iv, c.enc(mixed), Encrypt(c, c.enc(mixed), tail));
      XorTwice(plain, iv);
    }
  }

  lemma {:induction false} EncryptDecrypt(c: Cipher, iv: Bytes, data: Bytes)
    requires c.Invertible() && |iv| == c.size && Whole(|data|, c.size)
    ensures Encrypt(c, iv, Decrypt(c, iv, data)) == data
    decreases |data|
  {
    hide *;
    if data == [] {
      NoBlocks(c, iv);
    } else {
      FirstBlock(c, data);
      var block, tail := data[..c.size], data[c.size..];
      CipherFacts(c, block);
      DecryptCons(c, iv, block, tail);
      EncryptDecrypt(c, block, tail);
      XorTwice(c.dec(block), iv);
      EncryptCons(c, iv, Xor(c.dec(block), iv), Decrypt(c, block, tail));
    }
  }

  /** The chaining value after ciphertext ct: its last block, or iv when there is none. */
  function Chain(c: Cipher, iv: Bytes, ct: Bytes): Bytes {
    if |ct| < c.size then iv else ct[|ct| - c.size..]
  }

  lemma {:induction false} ChainCons(c: Cipher, iv: Bytes, block: Bytes, rest: Bytes)
    requires c.Invertible() && |iv| == |block| == c.size && Whole(|rest|, c.size)
    ensures Chain(c, iv, block + rest) == Chain(c, block, rest)
    ensures |Chain(c, block, rest)| == c.size
  {
    hide c.Invertible;
    if rest == [] {
      assert block + rest == block;
    } else {
      FirstBlock(c, rest);
      assert (block + rest)[|block + rest| - c.size..] == rest[|rest| - c.size..];
    }
  }

  lemma {:induction false} EncryptAppend(c: Cipher, iv: Bytes, a: Bytes, b: Bytes)
    requires c.Invertible() && |iv| == c.size && Whole(|a|, c.size) && Whole(|b|, c.size)
    ensures Whole(|a + b|, c.size) && |Chain(c, iv, Encrypt(c, iv, a))| == c.size
    ensures Encrypt(c, iv, a + b) == Encrypt(c, iv, a) + Encrypt(c, Chain(c, iv, Encrypt(c, iv, a)), b)
    decreases |a|
  {
    hide *;
    if a == [] {
      NoBlocks(c, iv);
      assert a + b == b && [] + Encrypt(c, iv, b) == Encrypt(c, iv, b);
    } else {
      FirstBlock(c, a);
      var head, tail := a[..c.size], a[c.size..];
      CipherFacts(c, Xor(head, iv));
      var block := c.enc(Xor(head, iv));
      EncryptAppend(c, block, tail, b);
      EncryptCons(c, iv, head, tail);
      Associate(head, tail, b);
      EncryptCons(c, iv, head, tail + b);
      ChainCons(c, iv, block, Encrypt(c, block, tail));
      Associate(block, Encrypt(c, block, tail), Encrypt(c, Chain(c, block, Encrypt(c, block, tail)), b));
    }
  }

  lemma {:induction false} DecryptAppend(c: Cipher, iv: Bytes, a: Bytes, b: Bytes)
    requires c.Invertible() && |iv| == c.size && Whole(|a|, c.size) && Whole(|b|, c.size)
    ensures Whole(|a + b|, c.size) && |Chain(c, iv, a)| == c.size
    ensures Decrypt(c, iv, a + b) == Decrypt(c, iv, a) + Decrypt(c, Chain(c, iv, a), b)
    decreases |a|
  {
    hide *;
    if a == [] {
      NoBlocks(c, iv);
      assert a + b == b && [] + Decrypt(c, iv, b) == Decrypt(c, iv, b);
    } else {
      FirstBlock(c, a);
      var head, tail := a[..c.size], a[c.size..];
      CipherFacts(c, head);
      DecryptAppend(c, head, tail, b);
      DecryptCons(c, iv, head, tail);
      Associate(head, tail, b);
      DecryptCons(c, iv, head, tail + b);
      ChainCons(c, iv, head, tail);
      Associate(Xor(c.dec(head), iv), Decrypt(c, head, tail), Decrypt(c, Chain(c, head, tail), b));
    }
  }

  // ---------- In place ----------

  /** `encrypt_padded::<NoPadding>` on a mutable buffer. */
  method EncryptInPlace(c: Cipher, iv: Bytes, data: array<byte>)
    requires c.Invertible() && |iv| == c.size && Whole(data.Length, c.size)
    modifies data
    ensures data[..] == Encrypt(c, iv, old(data[..]))
  {
    hide *;
    var pos, chain := 0, iv;
    ghost var plain := data[..];
    ghost var done, todo: Bytes := [], plain;
    NoBlocks(c, iv);
    while pos < data.Length
      invariant 0 <= pos <= data.Length == |plain| && |chain| == c.size
      invariant |done| == pos && |todo| == data.Length - pos && data[..] == done + todo
      invariant Whole(|todo|, c.size)
      invariant Encrypt(c, iv, plain) == done + Encrypt(c, chain, todo)
      decreases data.Length - pos
    {
      FirstBlock(c, todo);
      ghost var head, tail := todo[..c.size], todo[c.size..];
      EncryptCons(c, chain, head, tail);
      var block := c.enc(Xor(data[pos..pos + c.size], chain));
      assert data[pos..pos + c.size] == head;
      Associate(done, block, Encrypt(c, block, tail));
      Associate(done, head, tail);
      CopyInto(data, pos, block);
      assert (done + todo)[..pos] == done && (done + todo)[pos + c.size..] == tail;
      done, todo := done + block, tail;
      pos, chain := pos + c.size, block;
    }
    NoBlocks(c, chain);
  }
}
