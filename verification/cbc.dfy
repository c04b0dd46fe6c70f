/**
  AES-256 in CBC mode without padding, over an opaque block cipher. The
  block cipher itself is a parameter; only the chaining is modelled.
*/
module Cbc {
  import opened Bytes

  const BlockSize := 16

  type Block = b: seq<byte> | |b| == BlockSize witness seq(BlockSize, _ => 0)

  type BlockCipher = (seq<byte>, Block) -> Block

  /** The all-zero initialisation vector that every CTAP2 PIN operation uses. */
  const ZeroIv: Block := [0, 0, 0, 0, 0, 0, 0, 0, 0, 0, 0, 0, 0, 0, 0, 0]

  function XorBlock(a: Block, b: Block): (r: Block)
    ensures forall i :: 0 <= i < BlockSize ==> r[i] == Xor(a[i], b[i])
  {
    seq(BlockSize, i requires 0 <= i < BlockSize => Xor(a[i], b[i]))
  }

  /** C_i = E(P_i xor C_(i-1)), with C_(-1) = iv. */
  function Encrypt(key: seq<byte>, iv: Block, plain: seq<byte>, encrypt: BlockCipher): (c: seq<byte>)
    requires |plain| % BlockSize == 0
    ensures |c| == |plain|
    decreases |plain|
  {
    if |plain| == 0 then []
    else
      var c0 := encrypt(key, XorBlock(plain[..BlockSize], iv));
      c0 + Encrypt(key, c0, plain[BlockSize..], encrypt)
  }

  /** P_i = D(C_i) xor C_(i-1), with C_(-1) = iv. */
  function Decrypt(key: seq<byte>, iv: Block, cipher: seq<byte>, decrypt: BlockCipher): (p: seq<byte>)
    requires |cipher| % BlockSize == 0
    ensures |p| == |cipher|
    decreases |cipher|
  {
    if |cipher| == 0 then []
    else
      var c0: Block := cipher[..BlockSize];
      XorBlock(decrypt(key, c0), iv) + Decrypt(key, c0, cipher[BlockSize..], decrypt)
  }

  /** The cipher's block decryption undoes its block encryption under `key`. */
  ghost predicate Inverts(key: seq<byte>, encrypt: BlockCipher, decrypt: BlockCipher)
  {
    forall b: Block :: decrypt(key, encrypt(key, b)) == b
  }

  lemma XorBlockUndo(a: Block, b: Block)
    ensures XorBlock(XorBlock(a, b), b) == a
  {
    forall i | 0 <= i < BlockSize
      ensures XorBlock(XorBlock(a, b), b)[i] == a[i]
    {
      XorUndo(a[i], b[i]);
    }
  }

  /** CBC decryption with the matching block cipher recovers the plaintext. */
  lemma {:induction false} DecryptEncrypt(key: seq<byte>, iv: Block, plain: seq<byte>,
                                          encrypt: BlockCipher, decrypt: BlockCipher)
    requires |plain| % BlockSize == 0
    requires Inverts(key, encrypt, decrypt)
    ensures Decrypt(key, iv, Encrypt(key, iv, plain, encrypt), decrypt) == plain
    decreases |plain|
  {
    if |plain| > 0 {
      var p0: Block := plain[..BlockSize];
      var c0 := encrypt(key, XorBlock(p0, iv));
      var rest := Encrypt(key, c0, plain[BlockSize..], encrypt);
      var c: seq<byte> := c0 + rest;
      assert c[..BlockSize] == c0 && c[BlockSize..] == rest;
      XorBlockUndo(p0, iv);
      DecryptEncrypt(key, c0, plain[BlockSize..], encrypt, decrypt);
      assert p0 + plain[BlockSize..] == plain;
    }
  }
}
