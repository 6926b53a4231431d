// What cipher block chaining is: exclusive or bit by bit, each block combined with the one before, and what follows
// from that for the IV and for every block of the plaintext.
module CbcLaws {
  import opened Octets
  import opened Cbc

  // ---------- Exclusive or, bit by bit ----------

  lemma {:induction false} XorBitAt(x: nat, y: nat, k: nat, i: nat)
    requires i < k
    ensures XorBits(x, y, k) / Pow2(i) % 2 == (x / Pow2(i) + y / Pow2(i)) % 2
  {
    hide *;
    XorBitsStep(x, y, k);
    PowStep(i);
    var rest := XorBits(x / 2, y / 2, k - 1);
    if i == 0 {
      LowBit(x, y, rest);
    } else {
      XorBitAt(x / 2, y / 2, k - 1, i - 1);
      UpperBit(x, y, rest, Pow2(i - 1));
    }
  }

  lemma UpperBit(x: nat, y: nat, rest: nat, p: nat)
    requires p > 0 && rest / p % 2 == (x / 2 / p + y / 2 / p) % 2
    ensures ((x + y) % 2 + 2 * rest) / (2 * p) % 2 == (x / (2 * p) + y / (2 * p)) % 2
  {
    LowBitTwice(x, y, rest);
    HalfThen((x + y) % 2 + 2 * rest, p);
    HalfThen(x, p);
    HalfThen(y, p);
  }

  lemma PowStep(i: nat)
    ensures Pow2(0) == 1 && (i > 0 ==> Pow2(i) == 2 * Pow2(i - 1))
  {
  }

  lemma LowBit(x: nat, y: nat, rest: nat)
    ensures ((x + y) % 2 + 2 * rest) / 1 % 2 == (x / 1 + y / 1) % 2
  {
  }

  lemma HalfThen(x: nat, p: nat)
    requires p > 0
    ensures x / (2 * p) == x / 2 / p
  {
    var q, r := x / (2 * p), x % (2 * p);
    assert x == 2 * (p * q) + r;
    assert x / 2 == p * q + r / 2 && r / 2 < p;
    QuotientIs(x / 2, p, q, r / 2);
  }

  lemma QuotientIs(n: nat, p: nat, q: nat, r: nat)
    requires r < p && n == p * q + r
    ensures n / p == q
  {
    var e := n / p - q;
    assert n == p * (n / p) + n % p;
    assert p * e == r - n % p by { DistributeLeft(p, n / p, q); }
    if e >= 1 { TimesAtLeast(p, e); }
    if e <= -1 { TimesAtLeast(p, -e); }
  }

  lemma DistributeLeft(p: int, x: int, y: int)
    ensures p * (x - y) == p * x - p * y
  {
  }

  lemma TimesAtLeast(p: int, e: int)
    requires e >= 1 && p >= 0
    ensures p * e >= p && p * -e <= -p
  {
  }

  /** The octets' bits are combined one by one: a bit changes exactly where the other octet has one. */
  lemma XorOctetBit(x: byte, y: byte, i: nat)
    requires i < 8
    ensures Bit(XorOctet(x, y), i) <==> Bit(x, i) != Bit(y, i)
  {
    hide *;
    XorBitAt(x as int, y as int, 8, i);
    OctetIs(x, y);
    BitAt(x, i);
    BitAt(y, i);
    BitAt(XorOctet(x, y), i);
    Parity(x as int / Pow2(i), y as int / Pow2(i));
  }

  lemma {:induction false} OctetIs(x: byte, y: byte)
    ensures XorOctet(x, y) as int == XorBits(x as int, y as int, 8)
  {
    assert Pow2(8) == 0x100;
  }

  lemma {:induction false} BitAt(x: byte, i: nat)
    requires i < 8
    ensures Pow2(i) > 0 && (Bit(x, i) <==> x as int / Pow2(i) % 2 == 1)
  {
    Weights();
    assert [1, 2, 4, 8, 16, 32, 64, 128][i] == Pow2(i);
  }

  lemma Parity(a: nat, b: nat)
    ensures (a + b) % 2 == 1 <==> (a % 2 == 1) != (b % 2 == 1)
  {
  }

  lemma Weights()
    ensures Pow2(0) == 1 && Pow2(1) == 2 && Pow2(2) == 4 && Pow2(3) == 8
    ensures Pow2(4) == 16 && Pow2(5) == 32 && Pow2(6) == 64 && Pow2(7) == 128
  {
    assert Pow2(3) == 8;
    assert Pow2(5) == 4 * Pow2(3);
  }

  lemma {:induction false} XorBitsCommute(x: nat, y: nat, k: nat)
    ensures XorBits(x, y, k) == XorBits(y, x, k)
  {
    if k > 0 {
      XorBitsCommute(x / 2, y / 2, k - 1);
    }
  }

  /** With one operand fixed, the other is determined by the result. */
  lemma XorCancels(a: Bytes, b: Bytes, d: Bytes)
    requires |a| == |b| == |d|
    ensures Xor(a, b) == Xor(a, d) <==> b == d
    ensures Xor(b, a) == Xor(d, a) <==> b == d
  {
    XorCommutes(a, b);
    XorCommutes(a, d);
    XorTwice(b, a);
    XorTwice(d, a);
  }

  lemma XorCommutes(a: Bytes, b: Bytes)
    requires |a| == |b|
    ensures Xor(a, b) == Xor(b, a)
  {
    forall i | 0 <= i < |a| ensures Xor(a, b)[i] == Xor(b, a)[i] {
      XorBitsCommute(a[i] as int, b[i] as int, 8);
    }
  }

  // ---------- Every block enters every later one ----------

  /** The octets of the block before offset j: those of ct, or the IV. */
  function Previous(size: nat, iv: Bytes, ct: Bytes, j: nat): Bytes
    requires j <= |ct| && (j == 0 || size <= j)
  {
    if j == 0 then iv else ct[j - size..j]
  }

  /** ct is the CBC ciphertext: each block is the cipher of the plaintext block combined with the block before. */
  ghost predicate Chained(c: Cipher, iv: Bytes, data: Bytes, ct: Bytes)
    requires c.Invertible() && |iv| == c.size && Whole(|data|, c.size)
  {
    && |ct| == |data|
    && forall j :: 0 <= j && j + c.size <= |data| && Whole(j, c.size) ==> BlockChained(c, iv, data, ct, j)
  }

  ghost predicate BlockChained(c: Cipher, iv: Bytes, data: Bytes, ct: Bytes, j: nat)
    requires c.Invertible() && |iv| == c.size && j + c.size <= |data| == |ct| && Whole(j, c.size)
  {
    ct[j..j + c.size] == c.enc(Xor(data[j..j + c.size], Previous(c.size, iv, ct, j)))
  }

  lemma {:induction false} EncryptBlock(c: Cipher, iv: Bytes, data: Bytes, j: nat)
    requires c.Invertible() && |iv| == c.size && Whole(|data|, c.size) && j + c.size <= |data| && Whole(j, c.size)
    ensures BlockChained(c, iv, data, Encrypt(c, iv, data), j)
  {
    hide *;
    SplitWhole(c, data, j);
    var front, back := data[..j], data[j..];
    FirstBlock(c, back);
    EncryptAppend(c, iv, front, back);
    var done := Encrypt(c, iv, front);
    var chain := Chain(c, iv, done);
    CipherFacts(c, Xor(back[..c.size], chain));
    EncryptCons(c, chain, back[..c.size], back[c.size..]);
    var block := c.enc(Xor(back[..c.size], chain));
    var rest := Encrypt(c, block, back[c.size..]);
    Middle(done, block, rest);
    assert data == front + back;
    assert back[..c.size] == data[j..j + c.size];
    ChainIsPrevious(c, iv, done, block + rest);
    ChainedWhen(c, iv, data, Encrypt(c, iv, data), j);
  }

  lemma Middle(a: Bytes, b: Bytes, d: Bytes)
    ensures (a + (b + d))[|a|..|a| + |b|] == b
  {
  }

  lemma ChainIsPrevious(c: Cipher, iv: Bytes, done: Bytes, more: Bytes)
    requires done == [] || |done| >= c.size
    ensures c.size > 0 ==> Previous(c.size, iv, done + more, |done|) == Chain(c, iv, done)
  {
    if done != [] && c.size <= |done| {
      assert (done + more)[|done| - c.size..|done|] == done[|done| - c.size..];
    }
  }

  lemma {:induction false} ChainedWhen(c: Cipher, iv: Bytes, data: Bytes, ct: Bytes, j: nat)
    requires c.Invertible() && |iv| == c.size && j + c.size <= |data| == |ct| && Whole(j, c.size) && (j == 0 || c.size <= j)
    requires |Previous(c.size, iv, ct, j)| == c.size
    requires ct[j..j + c.size] == c.enc(Xor(data[j..j + c.size], Previous(c.size, iv, ct, j)))
    ensures BlockChained(c, iv, data, ct, j)
  {
  }

  lemma {:induction false} SplitWhole(c: Cipher, data: Bytes, j: nat)
    requires c.Invertible() && Whole(|data|, c.size) && j + c.size <= |data| && Whole(j, c.size)
    ensures Whole(|data[..j]|, c.size) && Whole(|data[j..]|, c.size) && c.size > 0 && (j == 0 || c.size <= j)
    ensures data[j..] != []
  {
    WholeSum(j, |data| - j, c.size);
  }

  /** Encryption is CBC: its result is the one chained ciphertext. */
  lemma {:induction false} EncryptIsChained(c: Cipher, iv: Bytes, data: Bytes, ct: Bytes)
    requires c.Invertible() && |iv| == c.size && Whole(|data|, c.size)
    ensures Encrypt(c, iv, data) == ct <==> Chained(c, iv, data, ct)
  {
    OneBlock(c);
    hide Encrypt, BlockChained, Whole, c.Invertible;
    forall j | 0 <= j && j + c.size <= |data| && Whole(j, c.size)
      ensures BlockChained(c, iv, data, Encrypt(c, iv, data), j)
    {
      EncryptBlock(c, iv, data, j);
    }
    if Chained(c, iv, data, ct) {
      SameChain(c, iv, data, Encrypt(c, iv, data), ct, |data|);
      assert ct[..|data|] == ct && Encrypt(c, iv, data)[..|data|] == Encrypt(c, iv, data);
    }
  }

  lemma {:induction false} SameChain(c: Cipher, iv: Bytes, data: Bytes, a: Bytes, b: Bytes, j: nat)
    requires c.Invertible() && |iv| == c.size && Whole(|data|, c.size) && Whole(j, c.size) && j <= |data|
    requires Chained(c, iv, data, a) && Chained(c, iv, data, b)
    ensures a[..j] == b[..j]
  {
    hide *;
    OneBlock(c);
    if j > 0 {
      WholeBefore(j, c.size);
      var i := j - c.size;
      SameChain(c, iv, data, a, b, i);
      ChainedAt(c, iv, data, a, i);
      ChainedAt(c, iv, data, b, i);
      PreviousIs(c.size, iv, a, i);
      PreviousIs(c.size, iv, b, i);
      PrefixGrows(a, b, i, j, c.size);
    }
  }

  lemma {:induction false} ChainedAt(c: Cipher, iv: Bytes, data: Bytes, ct: Bytes, j: nat)
    requires c.Invertible() && |iv| == c.size && Whole(|data|, c.size) && Chained(c, iv, data, ct)
    requires j + c.size <= |data| && Whole(j, c.size)
    ensures |ct| == |data| && (j == 0 || c.size <= j) && |Previous(c.size, iv, ct, j)| == c.size
    ensures ct[j..j + c.size] == c.enc(Xor(data[j..j + c.size], Previous(c.size, iv, ct, j)))
  {
    hide c.Invertible, Xor, BlockChained;
    assert BlockChained(c, iv, data, ct, j);
    BlockIs(c, iv, data, ct, j);
  }

  /** Equal so far, and equal in the next block if the blocks before it are equal. */
  lemma PrefixGrows(a: Bytes, b: Bytes, i: nat, j: nat, size: nat)
    requires |a| == |b| && i + size == j <= |a| && a[..i] == b[..i] && (i == 0 || size <= i)
    ensures i > 0 ==> a[i - size..i - size + size] == b[i - size..i - size + size]
    ensures a[i..i + size] == b[i..i + size] ==> a[..j] == b[..j]
  {
    assert i > 0 ==> a[i - size..i] == a[..i][i - size..] == b[..i][i - size..] == b[i - size..i];
    assert a[..j] == a[..i] + a[i..j] && b[..j] == b[..i] + b[i..j];
  }

  lemma WholeBefore(j: nat, size: nat)
    requires size > 0 && j > 0 && Whole(j, size)
    ensures j >= size && Whole(j - size, size)
  {
  }

  /** Every ciphertext block tells two IVs apart. */
  lemma {:induction false} IvReachesBlock(c: Cipher, iv: Bytes, other: Bytes, data: Bytes, j: nat)
    requires c.Invertible() && |iv| == |other| == c.size && Whole(|data|, c.size) && Whole(j, c.size) && j + c.size <= |data|
    ensures Encrypt(c, iv, data)[j..j + c.size] == Encrypt(c, other, data)[j..j + c.size] <==> iv == other
    decreases j
  {
    hide *;
    var a, b := Encrypt(c, iv, data), Encrypt(c, other, data);
    PreviousSize(c, iv, a, data, j);
    PreviousSize(c, other, b, data, j);
    var p, q := Previous(c.size, iv, a, j), Previous(c.size, other, b, j);
    EncryptBlock(c, iv, data, j);
    EncryptBlock(c, other, data, j);
    BlockIs(c, iv, data, a, j);
    BlockIs(c, other, data, b, j);
    SameBlock(c, data[j..j + c.size], p, q);
    if j > 0 {
      BlockBefore(c, j);
      IvReachesBlock(c, iv, other, data, j - c.size);
      PreviousIs(c.size, iv, a, j);
      PreviousIs(c.size, other, b, j);
    } else {
      PreviousIs(c.size, iv, a, 0);
      PreviousIs(c.size, other, b, 0);
    }
  }

  lemma {:induction false} BlockIs(c: Cipher, iv: Bytes, data: Bytes, ct: Bytes, j: nat)
    requires c.Invertible() && |iv| == c.size && j + c.size <= |data| == |ct| && Whole(j, c.size)
    requires BlockChained(c, iv, data, ct, j)
    ensures (j == 0 || c.size <= j) && |Previous(c.size, iv, ct, j)| == c.size
    ensures ct[j..j + c.size] == c.enc(Xor(data[j..j + c.size], Previous(c.size, iv, ct, j)))
  {
  }

  lemma {:induction false} PreviousSize(c: Cipher, iv: Bytes, ct: Bytes, data: Bytes, j: nat)
    requires c.Invertible() && |iv| == c.size && j + c.size <= |data| == |ct| && Whole(j, c.size)
    ensures (j == 0 || c.size <= j) && |Previous(c.size, iv, ct, j)| == c.size
  {
  }

  lemma PreviousIs(size: nat, iv: Bytes, ct: Bytes, j: nat)
    requires j <= |ct| && (j == 0 || size <= j)
    ensures Previous(size, iv, ct, j) == if j == 0 then iv else ct[j - size..j - size + size]
  {
  }

  lemma BlockBefore(c: Cipher, j: nat)
    requires c.Invertible() && j > 0 && Whole(j, c.size)
    ensures c.size <= j && Whole(j - c.size, c.size) && c.size > 0
  {
  }

  lemma SameBlock(c: Cipher, block: Bytes, p: Bytes, q: Bytes)
    requires c.Invertible() && |block| == |p| == |q| == c.size
    ensures c.enc(Xor(block, p)) == c.enc(Xor(block, q)) <==> p == q
    ensures c.enc(Xor(p, block)) == c.enc(Xor(q, block)) <==> p == q
  {
    hide Xor;
    XorCancels(block, p, q);
    CipherFacts(c, Xor(block, p));
    CipherFacts(c, Xor(block, q));
    CipherFacts(c, Xor(p, block));
    CipherFacts(c, Xor(q, block));
  }

  /** For any data the IV enters the ciphertext. */
  lemma {:induction false} IvMatters(c: Cipher, iv: Bytes, other: Bytes, data: Bytes)
    requires c.Invertible() && |iv| == |other| == c.size && Whole(|data|, c.size) && data != []
    ensures Encrypt(c, iv, data) == Encrypt(c, other, data) <==> iv == other
  {
    hide Encrypt;
    FirstBlock(c, data);
    IvReachesBlock(c, iv, other, data, 0);
  }

  /** A plaintext block enters its own ciphertext block and every one behind it. */
  lemma {:induction false} BlockMatters(c: Cipher, iv: Bytes, front: Bytes, p: Bytes, q: Bytes, back: Bytes, j: nat)
    requires c.Invertible() && |iv| == |p| == |q| == c.size && Whole(|front|, c.size) && Whole(|back|, c.size)
    requires Whole(j, c.size) && j + c.size <= |back|
    ensures Whole(|front + (p + back)|, c.size) && Whole(|front + (q + back)|, c.size)
    ensures var a, b, at := Encrypt(c, iv, front + (p + back)), Encrypt(c, iv, front + (q + back)), |front| + c.size;
      && (a[|front|..at] == b[|front|..at] <==> p == q)
      && (a[at + j..at + j + c.size] == b[at + j..at + j + c.size] <==> p == q)
  {
    hide *;
    var done := Encrypt(c, iv, front);
    Appended(c, iv, front, p, back);
    Appended(c, iv, front, q, back);
    var chain := Chain(c, iv, done);
    SameBlock(c, chain, p, q);
    IvReachesBlock(c, c.enc(Xor(p, chain)), c.enc(Xor(q, chain)), back, j);
    Parts(done, c.enc(Xor(p, chain)), Encrypt(c, c.enc(Xor(p, chain)), back), j, c.size);
    Parts(done, c.enc(Xor(q, chain)), Encrypt(c, c.enc(Xor(q, chain)), back), j, c.size);
  }

  lemma {:induction false} Appended(c: Cipher, iv: Bytes, front: Bytes, p: Bytes, back: Bytes)
    requires c.Invertible() && |iv| == |p| == c.size && Whole(|front|, c.size) && Whole(|back|, c.size)
    ensures Whole(|front + (p + back)|, c.size) && |Encrypt(c, iv, front)| == |front|
    ensures var done := Encrypt(c, iv, front);
      var chain := Chain(c, iv, done);
      && |chain| == c.size && |c.enc(Xor(p, chain))| == c.size
      && Encrypt(c, iv, front + (p + back)) == done + (c.enc(Xor(p, chain)) + Encrypt(c, c.enc(Xor(p, chain)), back))
  {
    hide Encrypt, Xor, Chain, Whole;
    OneBlock(c);
    WholeSum(c.size, |back|, c.size);
    EncryptAppend(c, iv, front, p + back);
    EncryptCons(c, Chain(c, iv, Encrypt(c, iv, front)), p, back);
  }

  lemma {:induction false} OneBlock(c: Cipher)
    requires c.Invertible()
    ensures c.size > 0 && Whole(c.size, c.size)
  {
    assert Whole(0, c.size);
  }

  lemma Parts(a: Bytes, b: Bytes, d: Bytes, j: nat, size: nat)
    requires |b| == size && j + size <= |d|
    ensures var s, at := a + (b + d), |a| + size;
      s[|a|..at] == b && s[at + j..at + j + size] == d[j..j + size]
  {
  }
}
