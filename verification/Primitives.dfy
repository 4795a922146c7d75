/**
 The primitives the server takes from libraries, as functions with the laws it
 relies on. Randomness is an explicit argument; a private key stands for itself
 as octets, a public key as its PKCS#1 encoding.
 */
module Primitives {
  import opened Wrappers

  datatype Hash = Sha1 | Sha256

  type BlockSize = n: nat | n == 8 || n == 16 witness 8

  datatype Cipher = Aes128 | Aes192 | Aes256 | TripleDes | Des {
    /** Key length in octets (`content_key_len`). */
    function KeyLen(): nat {
      match this
      case Aes128 => 16
      case Aes192 => 24
      case Aes256 => 32
      case TripleDes => 24
      case Des => 8
    }

    function BlockLen(): BlockSize {
      if TripleDes? || Des? then 8 else 16
    }
  }

  datatype Primitives = Primitives(
    publicKey: bytes -> bytes,
    isRsaKey: bytes -> bool,
    wrap: (bytes, bytes, bytes) -> Option<bytes>,
    unwrap: (bytes, bytes) -> Option<bytes>,
    keyedHash: (bytes, bytes) -> bytes,
    encryptBlock: (Cipher, bytes, bytes) -> bytes,
    decryptBlock: (Cipher, bytes, bytes) -> bytes,
    hash: (Hash, bytes) -> bytes,
    sign: (bytes, bytes) -> Option<bytes>,
    verifies: (Hash, bytes, bytes, bytes) -> bool
  )

  /**
   Decryption undoes encryption, block ciphers permute blocks, honest signatures verify, HMAC-SHA256 gives 32 octets.
   */
  ghost predicate Lawful(p: Primitives) {
    && (forall key: bytes {:trigger p.publicKey(key)} :: p.isRsaKey(p.publicKey(key)))
    && (forall key: bytes, cek: bytes, rand: bytes {:trigger p.wrap(p.publicKey(key), cek, rand)} ::
          var w := p.wrap(p.publicKey(key), cek, rand);
          w.Some? ==> p.unwrap(key, w.value) == Some(cek))
    && (forall key: bytes, m: bytes {:trigger p.keyedHash(key, m)} :: |p.keyedHash(key, m)| == 32)
    && (forall c: Cipher, k: bytes, b: bytes {:trigger p.encryptBlock(c, k, b)} :: |b| == c.BlockLen() ==>
          |p.encryptBlock(c, k, b)| == c.BlockLen() && p.decryptBlock(c, k, p.encryptBlock(c, k, b)) == b)
    && (forall c: Cipher, k: bytes, b: bytes {:trigger p.decryptBlock(c, k, b)} :: |b| == c.BlockLen() ==>
          |p.decryptBlock(c, k, b)| == c.BlockLen())
    && (forall key: bytes, m: bytes {:trigger p.sign(key, m)} ::
          p.sign(key, m).Some? ==> p.verifies(Sha256, p.publicKey(key), m, p.sign(key, m).value))
  }

  /** What a key signs verifies under no other public key. */
  ghost predicate Distinguishing(p: Primitives) {
    forall key: bytes, m: bytes, pub: bytes {:trigger p.verifies(Sha256, pub, m, p.sign(key, m).value)} ::
      p.sign(key, m).Some? && p.verifies(Sha256, pub, m, p.sign(key, m).value) ==> pub == p.publicKey(key)
  }

  /** The laws are consistent: trivial primitives obey them. */
  lemma LawfulExists() returns (p: Primitives)
    ensures Lawful(p)
    ensures forall key, cek, rand :: p.wrap(key, cek, rand) == Some(cek)
    ensures forall h, m :: p.hash(h, m) == m
    ensures forall key :: p.publicKey(key) == key
  {
    p := Primitives(
      key => key,
      pub => true,
      (pub: bytes, cek: bytes, rand: bytes) => Some(cek),
      (key: bytes, w: bytes) => Some(w),
      (key: bytes, m: bytes) => seq(32, i => 0),
      (c: Cipher, k: bytes, b: bytes) => b,
      (c: Cipher, k: bytes, b: bytes) => b,
      (h: Hash, m: bytes) => m,
      (key: bytes, m: bytes) => Some(m),
      (h: Hash, pub: bytes, m: bytes, s: bytes) => true
    );
  }

  /** Lawful primitives with short results, library calls that always succeed, and signatures that name their key. */
  lemma ShortPrimitivesExist() returns (p: Primitives)
    ensures Lawful(p) && Distinguishing(p)
    ensures forall key :: p.publicKey(key) == key
    ensures forall key, cek, rand :: p.wrap(key, cek, rand) == Some(cek)
    ensures forall h, m :: p.hash(h, m) == []
    ensures forall key, m :: p.sign(key, m) == Some(key)
  {
    var q := LawfulExists();
    p := q.(hash := (h: Hash, m: bytes) => [], sign := (key: bytes, m: bytes) => Some(key),
            verifies := (h: Hash, pub: bytes, m: bytes, s: bytes) => s == pub);
  }
}
