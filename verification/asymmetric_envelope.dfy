/** The ECDH envelope of `AsymmetricEncryption`: the secret is encrypted
    once under a fresh AES key, and that key is wrapped once per recipient
    under the secret an ephemeral key pair shares with the recipient's
    public key. The package carries the ephemeral public key, the IV, the
    ciphertext and the wrapped keys, and never the AES key itself. Opening
    derives the shared secret from the reader's private key and tries the
    wrapped keys in order until one unwraps.

    Key agreement (ECDH on P-256, with the SPKI and PKCS #8 imports it
    needs) is an oracle `deriveBits(privateKey, publicKey)` on the keys'
    stored forms. */
module AsymmetricEnvelope {
  import opened Wrappers
  import opened GF256
  import opened WebCrypto
  import Utf8

  datatype RecipientKey = RecipientKey(keyIv: seq<byte>, encryptedKey: seq<byte>)

  datatype SealedPackage = SealedPackage(
    ephemeralPublicKey: string,
    iv: seq<byte>,
    encryptedSecret: seq<byte>,
    recipientKeys: seq<RecipientKey>)

  datatype Ecdh = Ecdh(deriveBits: (string, string) -> Result<seq<byte>, string>)

  datatype KeyPair = KeyPair(publicKey: string, privateKey: string)

  const CannotAccess := "Failed to decrypt the secret. This key cannot access the secret."

  // ------------------------------------------------------------ encryption

  /** The IV the loop draws for recipient `k`, after the payload IV. */
  function KeyIvDraw(rnd: Random, k: nat): (iv: seq<byte>)
    ensures |iv| == IvLength
  {
    RandomBytes(rnd, IvLength * (k + 1), IvLength)
  }

  /** Entry `k` holds the AES key wrapped for `pub`: encrypted, under the
      secret the ephemeral private key shares with `pub`, with its own IV. */
  predicate WrappedFor(e: RecipientKey, aesKey: seq<byte>, pub: string, aes: Aes, ecdh: Ecdh, ephemeral: KeyPair)
  {
    |e.keyIv| == IvLength
    && ecdh.deriveBits(ephemeral.privateKey, pub).Success?
    && aes.encrypt(ecdh.deriveBits(ephemeral.privateKey, pub).value, e.keyIv, aesKey) == Success(e.encryptedKey)
  }

  /** The recipient loop from position `k` on: derive, draw an IV, wrap,
      push; the first step that throws ends the encryption. */
  function WrapKeys(pubs: seq<string>, k: nat, aesKey: seq<byte>, aes: Aes, ecdh: Ecdh, ephemeral: KeyPair, rnd: Random)
    : (r: Result<seq<RecipientKey>, string>)
    requires k <= |pubs|
    ensures r.Success? ==> |r.value| == |pubs| - k
    ensures r.Success? ==> forall j :: 0 <= j < |r.value| ==>
      WrappedFor(r.value[j], aesKey, pubs[k + j], aes, ecdh, ephemeral) && r.value[j].keyIv == KeyIvDraw(rnd, k + j)
    decreases |pubs| - k
  {
    if k == |pubs| then Success([])
    else
      var shared :- ecdh.deriveBits(ephemeral.privateKey, pubs[k]);
      var keyIv := KeyIvDraw(rnd, k);
      var wrapped :- aes.encrypt(shared, keyIv, aesKey);
      var rest :- WrapKeys(pubs, k + 1, aesKey, aes, ecdh, ephemeral, rnd);
      Success([RecipientKey(keyIv, wrapped)] + rest)
  }

  /** `encryptForRecipients(secret, recipientPublicKeys)`, given the
      ephemeral key pair and AES key it generates and its random stream. */
  function EncryptForRecipients(secret: string, pubs: seq<string>, aes: Aes, ecdh: Ecdh,
                                ephemeral: KeyPair, aesKey: seq<byte>, rnd: Random): (r: Result<SealedPackage, string>)
    ensures r.Success? ==> r.value.ephemeralPublicKey == ephemeral.publicKey && |r.value.iv| == IvLength
    ensures r.Success? ==> aes.encrypt(aesKey, r.value.iv, Utf8.Encode(secret)) == Success(r.value.encryptedSecret)
    ensures r.Success? ==> |r.value.recipientKeys| == |pubs|
    ensures r.Success? ==> forall k :: 0 <= k < |pubs| ==> WrappedFor(r.value.recipientKeys[k], aesKey, pubs[k], aes, ecdh, ephemeral)
  {
    var iv := RandomBytes(rnd, 0, IvLength);
    var c :- aes.encrypt(aesKey, iv, Utf8.Encode(secret));
    var keys :- WrapKeys(pubs, 0, aesKey, aes, ecdh, ephemeral, rnd);
    Success(SealedPackage(ephemeral.publicKey, iv, c, keys))
  }

  // ------------------------------------------------------------ decryption

  /** One pass of the loop body: decrypt the wrapped key and import it; a
      throw in either step means this entry is not for us. */
  function Unwrap(e: RecipientKey, aes: Aes, derived: seq<byte>): (r: Option<seq<byte>>)
    ensures r.Some? <==> aes.decrypt(derived, e.keyIv, e.encryptedKey).Success? && ValidAesKey(aes.decrypt(derived, e.keyIv, e.encryptedKey).value)
    ensures r.Some? ==> r.value == aes.decrypt(derived, e.keyIv, e.encryptedKey).value
  {
    match aes.decrypt(derived, e.keyIv, e.encryptedKey)
    case Failure(_) => None
    case Success(raw) => if ValidAesKey(raw) then Some(raw) else None
  }

  /** The loop from position `k` on: the index of the first entry that
      unwraps, where the `break` leaves the loop. */
  function FirstUnwrap(entries: seq<RecipientKey>, k: nat, aes: Aes, derived: seq<byte>): (r: Option<nat>)
    requires k <= |entries|
    ensures r.Some? ==> k <= r.value < |entries| && Unwrap(entries[r.value], aes, derived).Some?
    ensures r.Some? ==> forall j :: k <= j < r.value ==> Unwrap(entries[j], aes, derived).None?
    ensures r.None? <==> forall j :: k <= j < |entries| ==> Unwrap(entries[j], aes, derived).None?
    decreases |entries| - k
  {
    if k == |entries| then None
    else if Unwrap(entries[k], aes, derived).Some? then Some(k)
    else FirstUnwrap(entries, k + 1, aes, derived)
  }

  /** `decryptWithPrivateKey(encryptedPackage, privateKeyString)`, given the
      outcome of `JSON.parse`. Only the final message is the module's own;
      every other failure passes the platform's error through. */
  function DecryptWithPrivateKey(parsed: Result<SealedPackage, string>, privateKey: string, aes: Aes, ecdh: Ecdh)
    : (r: Result<string, string>)
    ensures parsed.Success? && ecdh.deriveBits(privateKey, parsed.value.ephemeralPublicKey).Success?
            && FirstUnwrap(parsed.value.recipientKeys, 0, aes, ecdh.deriveBits(privateKey, parsed.value.ephemeralPublicKey).value).None?
            ==> r == Failure(CannotAccess)
    ensures r.Success? ==> parsed.Success? && ecdh.deriveBits(privateKey, parsed.value.ephemeralPublicKey).Success?
  {
    var pkg :- parsed;
    var derived :- ecdh.deriveBits(privateKey, pkg.ephemeralPublicKey);
    match FirstUnwrap(pkg.recipientKeys, 0, aes, derived)
    case None => Failure(CannotAccess)
    case Some(i) =>
      var m :- aes.decrypt(Unwrap(pkg.recipientKeys[i], aes, derived).value, pkg.iv, pkg.encryptedSecret);
      Success(Utf8.Decode(m))
  }

  // ------------------------------------------------------------ round trip

  /** Recipient `m` reads the secret back (less a leading U+FEFF, taken for
      a byte order mark), provided ECDH agrees — the reader's private key
      and the ephemeral public key share what the ephemeral private key
      and `pubs[m]` share — and no earlier entry unwraps under that shared
      secret to some other key. */
  lemma RecipientCanOpen(secret: string, pubs: seq<string>, aes: Aes, ecdh: Ecdh,
                         ephemeral: KeyPair, aesKey: seq<byte>, rnd: Random, m: nat, privateKey: string)
    requires Sound(aes) && ValidAesKey(aesKey)
    requires EncryptForRecipients(secret, pubs, aes, ecdh, ephemeral, aesKey, rnd).Success? && m < |pubs|
    requires ecdh.deriveBits(privateKey, ephemeral.publicKey) == ecdh.deriveBits(ephemeral.privateKey, pubs[m])
    requires var pkg := EncryptForRecipients(secret, pubs, aes, ecdh, ephemeral, aesKey, rnd).value;
             var derived := ecdh.deriveBits(ephemeral.privateKey, pubs[m]).value;
             forall j :: 0 <= j < m ==> Unwrap(pkg.recipientKeys[j], aes, derived) in {None, Some(aesKey)}
    ensures var pkg := EncryptForRecipients(secret, pubs, aes, ecdh, ephemeral, aesKey, rnd);
      (|secret| == 0 || secret[0] != Utf8.ByteOrderMark) ==> DecryptWithPrivateKey(pkg, privateKey, aes, ecdh) == Success(secret)
    ensures var pkg := EncryptForRecipients(secret, pubs, aes, ecdh, ephemeral, aesKey, rnd);
      (|secret| > 0 && secret[0] == Utf8.ByteOrderMark) ==> DecryptWithPrivateKey(pkg, privateKey, aes, ecdh) == Success(secret[1..])
  {
    var pkg := EncryptForRecipients(secret, pubs, aes, ecdh, ephemeral, aesKey, rnd).value;
    var derived := ecdh.deriveBits(ephemeral.privateKey, pubs[m]).value;
    var e := pkg.recipientKeys[m];
    assert WrappedFor(e, aesKey, pubs[m], aes, ecdh, ephemeral);
    assert aes.decrypt(derived, e.keyIv, aes.encrypt(derived, e.keyIv, aesKey).value) == Success(aesKey);
    assert Unwrap(e, aes, derived) == Some(aesKey);
    FirstUnwrapFinds(pkg.recipientKeys, 0, aes, derived, m, aesKey);
    assert aes.decrypt(aesKey, pkg.iv, aes.encrypt(aesKey, pkg.iv, Utf8.Encode(secret)).value) == Success(Utf8.Encode(secret));
    Utf8.DecodeEncode(secret);
  }

  /** When entry `m` unwraps to `key` and no entry from `k` up to `m`
      unwraps to anything else, the loop started at `k` stops with `key`. */
  lemma {:induction false} FirstUnwrapFinds(entries: seq<RecipientKey>, k: nat, aes: Aes, derived: seq<byte>, m: nat, key: seq<byte>)
    requires k <= m < |entries| && Unwrap(entries[m], aes, derived) == Some(key)
    requires forall j :: k <= j < m ==> Unwrap(entries[j], aes, derived) in {None, Some(key)}
    ensures FirstUnwrap(entries, k, aes, derived).Some?
    ensures Unwrap(entries[FirstUnwrap(entries, k, aes, derived).value], aes, derived) == Some(key)
    decreases m - k
  {
    if k < m && Unwrap(entries[k], aes, derived).None? {
      FirstUnwrapFinds(entries, k + 1, aes, derived, m, key);
    }
  }

  /** A reader none of whose entries unwraps is turned away with the
      module's own message, before the payload is touched: the result is
      the same whatever the payload's IV and ciphertext are. */
  lemma NoEntryNoPayload(p: SealedPackage, iv: seq<byte>, ciphertext: seq<byte>, privateKey: string, aes: Aes, ecdh: Ecdh)
    requires ecdh.deriveBits(privateKey, p.ephemeralPublicKey).Success?
    requires forall j :: 0 <= j < |p.recipientKeys| ==>
      Unwrap(p.recipientKeys[j], aes, ecdh.deriveBits(privateKey, p.ephemeralPublicKey).value).None?
    ensures DecryptWithPrivateKey(Success(p), privateKey, aes, ecdh) == Failure(CannotAccess)
    ensures DecryptWithPrivateKey(Success(p.(iv := iv, encryptedSecret := ciphertext)), privateKey, aes, ecdh) == Failure(CannotAccess)
  {
  }
}
