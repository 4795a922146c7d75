/**
 PKCS#7 padding (section 6.3 of RFC 5652) and cipher block chaining
 (section 6.2 of NIST SP 800-38A) over an abstract block permutation.
 */
module BlockCipher {
  import opened Wrappers
  import opened Primitives
  import opened Bits

  function XorBlock(a: bytes, b: bytes): (r: bytes)
    requires |a| == |b|
    ensures |r| == |a|
  {
    seq(|a|, i requires 0 <= i < |a| => Xor(a[i], b[i]))
  }

  /** `n % size` for the two block sizes. */
  function Partial(n: nat, size: BlockSize): (r: nat)
    ensures r < size
  {
    if size == 8 then n % 8 else n % 16
  }

  /** Appends `n` octets of value `n`, 1 <= n <= size, up to a whole number of blocks. */
  function Pad(p: bytes, size: BlockSize): bytes {
    var n := size - Partial(|p|, size);
    p + seq(n, i => n)
  }

  function Unpad(y: bytes, size: BlockSize): Option<bytes> {
    if |y| == 0 || Partial(|y|, size) != 0 then None
    else
      var n := y[|y| - 1] as int;
      if n == 0 || n > size || (exists i :: |y| - n <= i < |y| && y[i] != n) then None
      else Some(y[..|y| - n])
  }

  function CbcEncrypt(p: Primitives, c: Cipher, key: bytes, iv: bytes, text: bytes): bytes
    requires |iv| == c.BlockLen()
    decreases |text|
  {
    var size := c.BlockLen();
    if |text| < size then []
    else
      var block := p.encryptBlock(c, key, XorBlock(text[..size], iv));
      if |block| != size then [] // not a permutation of blocks
      else block + CbcEncrypt(p, c, key, block, text[size..])
  }

  function CbcDecrypt(p: Primitives, c: Cipher, key: bytes, iv: bytes, text: bytes): bytes
    requires |iv| == c.BlockLen()
    decreases |text|
  {
    var size := c.BlockLen();
    if |text| < size then []
    else
      var block := p.decryptBlock(c, key, text[..size]);
      if |block| != size then []
      else XorBlock(block, iv) + CbcDecrypt(p, c, key, text[..size], text[size..])
  }

  // ----- padding -----

  /** Padding is undone, and fills whole blocks. */
  lemma PadRoundTrip(x: bytes, size: BlockSize)
    ensures Partial(|Pad(x, size)|, size) == 0 && |Pad(x, size)| > 0
    ensures Unpad(Pad(x, size), size) == Some(x)
  {
    assert Pad(x, size)[..|x|] == x;
  }

  /** Only paddings unpad: success means the text was the padding of what comes back. */
  lemma UnpadIsPad(y: bytes, size: BlockSize)
    requires Unpad(y, size).Some?
    ensures y == Pad(Unpad(y, size).value, size)
  {
    var n := y[|y| - 1] as int;
    var x := y[..|y| - n];
    assert n == size - Partial(|x|, size);
    assert y == x + seq(n, i => n);
  }

  // ----- chaining -----

  lemma XorBlockCancels(a: bytes, b: bytes)
    requires |a| == |b|
    ensures XorBlock(XorBlock(a, b), b) == a
  {
    forall i | 0 <= i < |a| ensures XorBlock(XorBlock(a, b), b)[i] == a[i] {
      XorCancels(a[i], b[i]);
    }
  }

  /** Chained decryption undoes chained encryption of whole blocks, under any key and initial vector. */
  lemma {:induction false} CbcRoundTrip(p: Primitives, c: Cipher, key: bytes, iv: bytes, text: bytes)
    requires Lawful(p)
    requires |iv| == c.BlockLen() && Partial(|text|, c.BlockLen()) == 0
    ensures |CbcEncrypt(p, c, key, iv, text)| == |text|
    ensures CbcDecrypt(p, c, key, iv, CbcEncrypt(p, c, key, iv, text)) == text
    decreases |text|
  {
    var size := c.BlockLen();
    if |text| >= size {
      var block := p.encryptBlock(c, key, XorBlock(text[..size], iv));
      var rest := CbcEncrypt(p, c, key, block, text[size..]);
      assert Partial(|text[size..]|, size) == 0;
      CbcRoundTrip(p, c, key, block, text[size..]);
      XorBlockCancels(text[..size], iv);
      assert (block + rest)[..size] == block && (block + rest)[size..] == rest;
      assert text == text[..size] + text[size..];
    }
  }
}
