/** The key derivation and sealing of EntryService (internal/app/entries.go, encrypt and decrypt).
    SHA-256 and AES-GCM are not modelled: a `Cipher` supplies them as functions, and `Sound`
    states the two laws the service relies on, for the 32-byte keys SHA-256 produces. */
module Crypto {
  import opened Wrappers
  import opened GoStrings

  /** Size of a GCM nonce in bytes; EntryService draws nonces of this size. */
  const NonceSize := 12

  /** `sum256(m)` is the digest; `seal(key, nonce, plaintext)` and `open(key, nonce, sealed)` are
      AES-GCM with no additional data, `open` answering None when authentication fails. */
  datatype Cipher = Cipher(
    sum256: Bytes -> Bytes,
    seal: (Bytes, Bytes, Bytes) -> Bytes,
    open: (Bytes, Bytes, Bytes) -> Option<Bytes>)

  datatype CryptoError = KeySizeError(size: int) | AuthenticationFailed

  /** The laws: digests are 32 bytes; opening with the sealing key and nonce returns the
      plaintext; opening with any other key of the same size fails. */
  ghost predicate Sound(c: Cipher) {
    && (forall m :: |c.sum256(m)| == 32)
    && (forall k, n, v :: |k| == 32 ==> c.open(k, n, c.seal(k, n, v)) == Some(v))
    && (forall k1, k2, n, v :: |k1| == 32 && |k2| == 32 && k1 != k2 ==> c.open(k2, n, c.seal(k1, n, v)) == None)
  }

  /** sha256.Sum256(append(aesKey, secret...)). */
  function DeriveKey(c: Cipher, aesKey: Bytes, secret: Bytes): Bytes {
    c.sum256(aesKey + secret)
  }

  /** aes.NewCipher accepts keys of 16, 24 or 32 bytes. */
  predicate ValidAesKeySize(n: int) {
    n == 16 || n == 24 || n == 32
  }

  /** EntryService.encrypt. */
  function Encrypt(c: Cipher, aesKey: Bytes, value: Bytes, nonce: Bytes, secret: Bytes): (r: Result<Bytes, CryptoError>)
    requires |nonce| == NonceSize
    ensures r.Failure? <==> !ValidAesKeySize(|DeriveKey(c, aesKey, secret)|)
  {
    var key := DeriveKey(c, aesKey, secret);
    if !ValidAesKeySize(|key|) then Failure(KeySizeError(|key|))
    else Success(c.seal(key, nonce, value))
  }

  /** EntryService.decrypt. */
  function Decrypt(c: Cipher, aesKey: Bytes, value: Bytes, nonce: Bytes, secret: Bytes): (r: Result<Bytes, CryptoError>)
    requires |nonce| == NonceSize
    ensures r.Success? ==> c.open(DeriveKey(c, aesKey, secret), nonce, value) == Some(r.value)
    ensures ValidAesKeySize(|DeriveKey(c, aesKey, secret)|) && c.open(DeriveKey(c, aesKey, secret), nonce, value).Some?
            ==> r.Success?
  {
    var key := DeriveKey(c, aesKey, secret);
    if !ValidAesKeySize(|key|) then Failure(KeySizeError(|key|))
    else match c.open(key, nonce, value)
      case None => Failure(AuthenticationFailed)
      case Some(p) => Success(p)
  }

  /** With a sound cipher the derived key is always accepted, so encryption cannot fail. */
  lemma EncryptSucceeds(c: Cipher, aesKey: Bytes, value: Bytes, nonce: Bytes, secret: Bytes)
    requires Sound(c) && |nonce| == NonceSize
    ensures Encrypt(c, aesKey, value, nonce, secret).Success?
  {
    assert |c.sum256(aesKey + secret)| == 32;
  }

  /** Decrypting with the secret used to encrypt returns the plaintext. */
  lemma DecryptEncrypt(c: Cipher, aesKey: Bytes, value: Bytes, nonce: Bytes, secret: Bytes)
    requires Sound(c) && |nonce| == NonceSize
    ensures Encrypt(c, aesKey, value, nonce, secret).Success?
    ensures Decrypt(c, aesKey, Encrypt(c, aesKey, value, nonce, secret).value, nonce, secret) == Success(value)
  {
    var key := DeriveKey(c, aesKey, secret);
    assert |key| == 32;
    assert c.open(key, nonce, c.seal(key, nonce, value)) == Some(value);
  }

  /** Decrypting with a secret whose derived key differs from the sealing one fails. */
  lemma DecryptWrongSecret(c: Cipher, aesKey: Bytes, value: Bytes, nonce: Bytes, secret: Bytes, other: Bytes)
    requires Sound(c) && |nonce| == NonceSize
    requires DeriveKey(c, aesKey, secret) != DeriveKey(c, aesKey, other)
    ensures Decrypt(c, aesKey, Encrypt(c, aesKey, value, nonce, secret).value, nonce, other) == Failure(AuthenticationFailed)
  {
    var k1, k2 := DeriveKey(c, aesKey, secret), DeriveKey(c, aesKey, other);
    assert |k1| == 32 && |k2| == 32;
    assert c.open(k2, nonce, c.seal(k1, nonce, value)) == None;
  }

  // ---------------------------------------------------------------------------------------------
  // The laws can be met: a cipher that prefixes the key to the plaintext.

  function ZeroDigest(m: Bytes): Bytes {
    seq(32, _ => 0)
  }

  function PrefixSeal(k: Bytes, n: Bytes, v: Bytes): Bytes {
    k + v
  }

  function PrefixOpen(k: Bytes, n: Bytes, s: Bytes): Option<Bytes> {
    if |k| <= |s| && s[..|k|] == k then Some(s[|k|..]) else None
  }

  lemma SoundCipherExists()
    ensures Sound(Cipher(ZeroDigest, PrefixSeal, PrefixOpen))
  {
    var c := Cipher(ZeroDigest, PrefixSeal, PrefixOpen);
    forall k, n, v | |k| == 32 ensures c.open(k, n, c.seal(k, n, v)) == Some(v) {
      assert (k + v)[..|k|] == k && (k + v)[|k|..] == v;
    }
    forall k1, k2, n, v | |k1| == 32 && |k2| == 32 && k1 != k2 ensures c.open(k2, n, c.seal(k1, n, v)) == None {
      assert (k1 + v)[..|k2|] == k1;
    }
  }
}
