/** The Web Crypto primitives the envelope code calls, kept opaque. AES-GCM
    (NIST SP 800-38D) encryption and decryption are oracles the caller
    supplies; a call that would reject its promise returns `Failure` with
    whatever message the platform gives. Randomness is an arbitrary byte
    stream: `getRandomValues(new Uint8Array(n))` reads the next `n` bytes of
    it, and a freshly generated key is an arbitrary input. */
module WebCrypto {
  import opened Wrappers
  import opened GF256

  /** Length in bytes of every IV the envelope code draws. */
  const IvLength: nat := 12

  type Random = nat -> byte

  /** `n` bytes of the stream, starting at draw number `from`. */
  function RandomBytes(rnd: Random, from: nat, n: nat): (r: seq<byte>)
    ensures |r| == n && forall i :: 0 <= i < n ==> r[i] == rnd(from + i)
  {
    seq(n, i requires 0 <= i < n => rnd(from + i))
  }

  /** AES-GCM on raw key bytes: `encrypt(key, iv, plaintext)` and
      `decrypt(key, iv, ciphertext)`, each including the `importKey` of the
      raw key that precedes it in the source. */
  datatype Aes = Aes(
    encrypt: (seq<byte>, seq<byte>, seq<byte>) -> Result<seq<byte>, string>,
    decrypt: (seq<byte>, seq<byte>, seq<byte>) -> Result<seq<byte>, string>)

  /** The only law the envelope round trips need: what encrypts under a key
      and IV decrypts under the same key and IV. */
  ghost predicate Sound(aes: Aes)
  {
    forall k, iv, m :: aes.encrypt(k, iv, m).Success? ==> aes.decrypt(k, iv, aes.encrypt(k, iv, m).value) == Success(m)
  }

  /** What `importKey("raw", …, {name: "AES-GCM"})` accepts: a 128-, 192- or
      256-bit key. */
  predicate ValidAesKey(raw: seq<byte>)
  {
    |raw| == 16 || |raw| == 24 || |raw| == 32
  }
}
