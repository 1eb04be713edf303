/** PKCS#7 padding (section 6.3 of RFC 5652) and cipher block chaining (section 6.2 of
    NIST SP 800-38A) over any keyed block permutation. */
module Cbc {
  import opened Integers
  import opened Wrappers

  const BLOCK_SIZE := 16

  type Block = b: seq<byte> | |b| == 16 witness seq(16, i => 0)

  // Exclusive or, bit by bit

  function Pow2(n: nat): nat {
    if n == 0 then 1 else 2 * Pow2(n - 1)
  }

  function XorBits(a: nat, b: nat, bits: nat): (r: nat)
    ensures r < Pow2(bits)
  {
    if bits == 0 then 0 else (a + b) % 2 + 2 * XorBits(a / 2, b / 2, bits - 1)
  }

  lemma LowBit(low: nat, high: nat, b: nat)
    requires low < 2
    ensures (low + 2 * high) / 2 == high && (low + 2 * high + b) % 2 == (low + b) % 2
  {
  }

  lemma ParityCancel(a: nat, b: nat)
    ensures ((a + b) % 2 + b) % 2 + 2 * (a / 2) == a
  {
  }

  lemma {:induction false} XorBitsCancel(a: nat, b: nat, bits: nat)
    requires a < Pow2(bits)
    ensures XorBits(XorBits(a, b, bits), b, bits) == a
  {
    if bits > 0 {
      var high := XorBits(a / 2, b / 2, bits - 1);
      LowBit((a + b) % 2, high, b);
      ParityCancel(a, b);
      XorBitsCancel(a / 2, b / 2, bits - 1);
    }
  }

  function Xor(a: byte, b: byte): byte {
    assert Pow2(8) == 256;
    XorBits(a, b, 8)
  }

  function XorBlock(a: Block, b: Block): Block {
    seq(16, i requires 0 <= i < 16 => Xor(a[i], b[i]))
  }

  lemma XorBlockCancel(a: Block, b: Block)
    ensures XorBlock(XorBlock(a, b), b) == a
  {
    forall i | 0 <= i < 16
      ensures XorBlock(XorBlock(a, b), b)[i] == a[i]
    {
      assert Pow2(8) == 256;
      XorBitsCancel(a[i], b[i], 8);
    }
  }

  /** Bit `k` of a number. */
  function Bit(x: nat, k: nat): nat {
    if k == 0 then x % 2 else Bit(x / 2, k - 1)
  }

  lemma BitOfSum(low: nat, high: nat, k: nat)
    requires low < 2
    ensures Bit(low + 2 * high, k) == if k == 0 then low else Bit(high, k - 1)
  {
    LowBit(low, high, 0);
  }

  lemma ParityDiffers(a: nat, b: nat)
    ensures (a + b) % 2 == 1 <==> a % 2 != b % 2
  {
  }

  lemma {:induction false} XorBitsDiffer(a: nat, b: nat, bits: nat, k: nat)
    requires k < bits
    ensures Bit(XorBits(a, b, bits), k) == 1 <==> Bit(a, k) != Bit(b, k)
  {
    BitOfSum((a + b) % 2, XorBits(a / 2, b / 2, bits - 1), k);
    if k == 0 {
      ParityDiffers(a, b);
    } else {
      XorBitsDiffer(a / 2, b / 2, bits - 1, k - 1);
    }
  }

  /** `x` is the bitwise exclusive or of `a` and `b`: exactly those bits are set that differ. */
  ghost predicate IsXor(x: seq<byte>, a: seq<byte>, b: seq<byte>) {
    && |x| == |a| == |b|
    && forall j, k :: 0 <= j < |x| && 0 <= k < 8 ==> (Bit(x[j], k) == 1 <==> Bit(a[j], k) != Bit(b[j], k))
  }

  lemma XorBlockIsXor(a: Block, b: Block)
    ensures IsXor(XorBlock(a, b), a, b)
  {
    forall j, k | 0 <= j < 16 && 0 <= k < 8
      ensures Bit(XorBlock(a, b)[j], k) == 1 <==> Bit(a[j], k) != Bit(b[j], k)
    {
      XorBitsDiffer(a[j], b[j], 8, k);
    }
  }

  lemma {:induction false} BitIsBit(x: nat, k: nat)
    ensures Bit(x, k) == 0 || Bit(x, k) == 1
  {
    if k > 0 {
      BitIsBit(x / 2, k - 1);
    }
  }

  lemma {:induction false} BitsDetermine(x: nat, y: nat, bits: nat)
    requires x < Pow2(bits) && y < Pow2(bits) && forall k :: 0 <= k < bits ==> Bit(x, k) == Bit(y, k)
    ensures x == y
  {
    if bits > 0 {
      forall k | 0 <= k < bits - 1
        ensures Bit(x / 2, k) == Bit(y / 2, k)
      {
        assert Bit(x, k + 1) == Bit(y, k + 1);
      }
      BitsDetermine(x / 2, y / 2, bits - 1);
      assert Bit(x, 0) == Bit(y, 0);
    }
  }

  /** So there is only one exclusive or. */
  lemma XorUnique(x: seq<byte>, y: seq<byte>, a: seq<byte>, b: seq<byte>)
    requires IsXor(x, a, b) && IsXor(y, a, b)
    ensures x == y
  {
    forall j | 0 <= j < |x|
      ensures x[j] == y[j]
    {
      assert Pow2(8) == 256;
      forall k | 0 <= k < 8
        ensures Bit(x[j], k) == Bit(y[j], k)
      {
        BitIsBit(x[j], k);
        BitIsBit(y[j], k);
      }
      BitsDetermine(x[j], y[j], 8);
    }
  }

  // The block cipher: for every key, a permutation of the blocks and its inverse

  datatype CipherPair = CipherPair(encrypt: (seq<byte>, Block) -> Block, decrypt: (seq<byte>, Block) -> Block)

  ghost predicate IsPermutation(c: CipherPair) {
    && (forall k: seq<byte>, b: Block :: c.decrypt(k, c.encrypt(k, b)) == b)
    && (forall k: seq<byte>, b: Block :: c.encrypt(k, c.decrypt(k, b)) == b)
  }

  type BlockCipher = c: CipherPair | IsPermutation(c)
    witness CipherPair((k: seq<byte>, b: Block) => b, (k: seq<byte>, b: Block) => b)

  // Chaining

  function Encrypt(c: BlockCipher, key: seq<byte>, chain: Block, data: seq<byte>): (r: seq<byte>)
    requires |data| % BLOCK_SIZE == 0
    ensures |r| == |data|
    decreases |data|
  {
    if data == [] then []
    else
      var block: Block := c.encrypt(key, XorBlock(data[..16], chain));
      block + Encrypt(c, key, block, data[16..])
  }

  function Decrypt(c: BlockCipher, key: seq<byte>, chain: Block, data: seq<byte>): (r: seq<byte>)
    requires |data| % BLOCK_SIZE == 0
    ensures |r| == |data|
    decreases |data|
  {
    if data == [] then []
    else XorBlock(c.decrypt(key, data[..16]), chain) + Decrypt(c, key, data[..16], data[16..])
  }

  lemma {:induction false} DecryptEncrypt(c: BlockCipher, key: seq<byte>, chain: Block, data: seq<byte>)
    requires |data| % BLOCK_SIZE == 0
    ensures Decrypt(c, key, chain, Encrypt(c, key, chain, data)) == data
    decreases |data|
  {
    if data != [] {
      var block: Block := c.encrypt(key, XorBlock(data[..16], chain));
      var rest := Encrypt(c, key, block, data[16..]);
      assert (block + rest)[..16] == block && (block + rest)[16..] == rest;
      XorBlockCancel(data[..16], chain);
      DecryptEncrypt(c, key, block, data[16..]);
      assert data == data[..16] + data[16..];
    }
  }

  lemma {:induction false} EncryptDecrypt(c: BlockCipher, key: seq<byte>, chain: Block, data: seq<byte>)
    requires |data| % BLOCK_SIZE == 0
    ensures Encrypt(c, key, chain, Decrypt(c, key, chain, data)) == data
    decreases |data|
  {
    if data != [] {
      var plain: Block := XorBlock(c.decrypt(key, data[..16]), chain);
      var rest := Decrypt(c, key, data[..16], data[16..]);
      assert (plain + rest)[..16] == plain && (plain + rest)[16..] == rest;
      XorBlockCancel(c.decrypt(key, data[..16]), chain);
      EncryptDecrypt(c, key, data[..16], data[16..]);
      assert data == data[..16] + data[16..];
    }
  }

  /** `out` is the encryption of the exclusive or of a plaintext block and the block before. */
  ghost predicate ChainedBlock(c: BlockCipher, key: seq<byte>, before: seq<byte>, plain: seq<byte>, out: seq<byte>) {
    exists x: Block :: IsXor(x, plain, before) && out == c.encrypt(key, x)
  }

  /** So is the block at offset `at` of a ciphertext, after the ciphertext block before it or the initial
      vector. */
  ghost predicate ChainedAt(c: BlockCipher, key: seq<byte>, chain: Block, data: seq<byte>, out: seq<byte>, at: int)
    requires |out| == |data| && 0 <= at && at + 16 <= |data| && (at == 0 || at >= 16)
  {
    ChainedBlock(c, key, if at == 0 then chain else out[at - 16..at], data[at..at + 16], out[at..at + 16])
  }

  lemma ChainedLater(c: BlockCipher, key: seq<byte>, chain: Block, data: seq<byte>, block: Block, rest: seq<byte>,
                     at: int)
    requires |data| == 16 + |rest| && 16 <= at && at + 16 <= |data| && (at == 16 || at >= 32)
    requires ChainedAt(c, key, block, data[16..], rest, at - 16)
    ensures ChainedAt(c, key, chain, data, block + rest, at)
  {
    var out := block + rest;
    assert data[16..][at - 16..at] == data[at..at + 16];
    assert out[16..] == rest && out[..16] == block;
    assert out[16..][at - 16..at] == out[at..at + 16];
    assert at > 16 ==> out[16..][at - 32..at - 16] == out[at - 16..at];
    assert (if at == 16 then block else rest[at - 32..at - 16]) == out[at - 16..at];
  }

  /** Chaining, at every block. */
  lemma {:induction false} EncryptChains(c: BlockCipher, key: seq<byte>, chain: Block, data: seq<byte>, at: int)
    requires |data| % 16 == 0 && at % 16 == 0 && 0 <= at < |data|
    ensures ChainedAt(c, key, chain, data, Encrypt(c, key, chain, data), at)
    decreases at
  {
    var x := XorBlock(data[..16], chain);
    var block: Block := c.encrypt(key, x);
    var rest := Encrypt(c, key, block, data[16..]);
    if at == 0 {
      XorBlockIsXor(data[..16], chain);
      assert (block + rest)[0..16] == block && data[0..16] == data[..16];
    } else {
      EncryptChains(c, key, block, data[16..], at - 16);
      ChainedLater(c, key, chain, data, block, rest, at);
    }
  }

  // Padding

  function Padding(n: nat): (p: seq<byte>)
    requires n < 256
  {
    seq(n, i => n)
  }

  function Pad(data: seq<byte>): seq<byte> {
    data + Padding(BLOCK_SIZE - |data| % BLOCK_SIZE)
  }

  /** Refuses empty data, a last byte outside 1..16 and any differing padding byte. */
  function Unpad(data: seq<byte>): Option<seq<byte>>
    requires |data| % BLOCK_SIZE == 0
  {
    if data == [] then None
    else
      var n: int := data[|data| - 1];
      if n == 0 || n > BLOCK_SIZE || data[|data| - n..] != Padding(n) then None
      else Some(data[..|data| - n])
  }

  /** The padding: up to the next multiple of 16, every added byte is the number of added bytes. */
  lemma PadBytes(data: seq<byte>)
    ensures var n := 16 - |data| % 16;
            && |Pad(data)| == |data| + n
            && (forall j :: 0 <= j < |data| ==> Pad(data)[j] == data[j])
            && (forall j :: |data| <= j < |data| + n ==> Pad(data)[j] == n)
  {
  }

  lemma UnpadPad(data: seq<byte>)
    ensures |Pad(data)| % BLOCK_SIZE == 0 && Unpad(Pad(data)) == Some(data)
  {
    var n := BLOCK_SIZE - |data| % BLOCK_SIZE;
    assert Pad(data)[|data|..] == Padding(n);
    assert Pad(data)[..|data|] == data;
  }

  lemma PadUnpad(data: seq<byte>)
    requires |data| % BLOCK_SIZE == 0 && Unpad(data).Some?
    ensures Pad(Unpad(data).value) == data
  {
    var n: int := data[|data| - 1];
    assert (|data| - n) % BLOCK_SIZE == (if n == BLOCK_SIZE then 0 else BLOCK_SIZE - n);
    assert data == data[..|data| - n] + data[|data| - n..];
  }
}
