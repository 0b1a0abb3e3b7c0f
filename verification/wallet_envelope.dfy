/** The package `WalletIntegratedEncryption` puts on chain, and the two
    functions that open it. The "simplified" scheme stores the AES key in
    the clear next to the ciphertext; the recipients' public keys are kept
    only for reference. Opening needs nothing but the package: neither the
    wallet provider and account nor the private key is ever read.

    The package is modelled as the object before `JSON.stringify`; opening
    takes the outcome of `JSON.parse` on the stored text. */
module WalletEnvelope {
  import opened Wrappers
  import opened GF256
  import opened WebCrypto
  import Utf8
  import Js

  datatype WalletPackage = WalletPackage(
    fallbackEncryption: bool,
    iv: seq<byte>,
    encryptedSecret: seq<byte>,
    aesKey: seq<byte>,
    recipientKeys: seq<string>)

  /** The randomness one encryption attempt consumes: the key
      `generateKey` makes (as `exportKey("raw")` gives it) and the stream
      `getRandomValues` draws the IV from. */
  datatype Draw = Draw(key: seq<byte>, rnd: Random)

  const DecryptPrefix := "Failed to decrypt: "

  /** The steps both encryption paths share: draw a 12-byte IV, encrypt the
      UTF-8 bytes of the secret, package the raw key with it. */
  function Seal(secret: string, recipients: seq<string>, aes: Aes, d: Draw, fallback: bool): (r: Result<WalletPackage, string>)
    ensures r.Success? <==> aes.encrypt(d.key, RandomBytes(d.rnd, 0, IvLength), Utf8.Encode(secret)).Success?
    ensures r.Success? ==> |r.value.iv| == IvLength && r.value.aesKey == d.key && r.value.recipientKeys == recipients
    ensures r.Success? ==> r.value.fallbackEncryption == fallback
    ensures r.Success? ==> aes.encrypt(r.value.aesKey, r.value.iv, Utf8.Encode(secret)) == Success(r.value.encryptedSecret)
  {
    var iv := RandomBytes(d.rnd, 0, IvLength);
    var c :- aes.encrypt(d.key, iv, Utf8.Encode(secret));
    Success(WalletPackage(fallback, iv, c, d.key, recipients))
  }

  /** `fallbackEncryptForRecipients(secret, recipientPublicKeys)`. */
  function FallbackEncryptForRecipients(secret: string, recipients: seq<string>, aes: Aes, d: Draw): (r: Result<WalletPackage, string>)
    ensures r.Success? ==> r.value.fallbackEncryption && |r.value.iv| == IvLength && r.value.recipientKeys == recipients
  {
    Seal(secret, recipients, aes, d, true)
  }

  /** `encryptForRecipients(secret, recipientPublicKeys)`: the main path
      with the draw `main`; if it throws, the fallback with a fresh draw. */
  function EncryptForRecipients(secret: string, recipients: seq<string>, aes: Aes, main: Draw, spare: Draw): (r: Result<WalletPackage, string>)
    ensures r.Failure? <==> Seal(secret, recipients, aes, main, false).Failure? && Seal(secret, recipients, aes, spare, true).Failure?
    ensures r.Success? ==> (r.value.fallbackEncryption <==> Seal(secret, recipients, aes, main, false).Failure?)
    ensures r.Success? ==> |r.value.iv| == IvLength && r.value.recipientKeys == recipients
    ensures r.Success? ==> r.value.aesKey == (if r.value.fallbackEncryption then spare.key else main.key)
    ensures r.Success? ==> aes.encrypt(r.value.aesKey, r.value.iv, Utf8.Encode(secret)) == Success(r.value.encryptedSecret)
  {
    var first := Seal(secret, recipients, aes, main, false);
    if first.Success? then first else FallbackEncryptForRecipients(secret, recipients, aes, spare)
  }

  /** The body both decryption functions share: import the stored key,
      decrypt, decode as UTF-8; any failure is re-thrown with the prefix. */
  function Open(parsed: Result<WalletPackage, string>, aes: Aes): (r: Result<string, string>)
    ensures r.Failure? <==> parsed.Failure? || aes.decrypt(parsed.value.aesKey, parsed.value.iv, parsed.value.encryptedSecret).Failure?
    ensures r.Failure? ==> Js.StartsWith(r.error, DecryptPrefix)
    ensures r.Success? ==> r.value == Utf8.Decode(aes.decrypt(parsed.value.aesKey, parsed.value.iv, parsed.value.encryptedSecret).value)
  {
    match parsed
    case Failure(e) => Failure(DecryptPrefix + e)
    case Success(p) =>
      match aes.decrypt(p.aesKey, p.iv, p.encryptedSecret)
      case Failure(e) => Failure(DecryptPrefix + e)
      case Success(m) => Success(Utf8.Decode(m))
  }

  /** `decryptWithWallet(encryptedPackage, provider, account)`. The
      provider and the account play no part: the stored key is used. */
  function DecryptWithWallet<Provider>(parsed: Result<WalletPackage, string>, aes: Aes, provider: Provider, account: string): (r: Result<string, string>)
    ensures r.Failure? <==> parsed.Failure? || aes.decrypt(parsed.value.aesKey, parsed.value.iv, parsed.value.encryptedSecret).Failure?
    ensures r.Failure? ==> Js.StartsWith(r.error, DecryptPrefix)
    ensures r.Success? ==> r.value == Utf8.Decode(aes.decrypt(parsed.value.aesKey, parsed.value.iv, parsed.value.encryptedSecret).value)
  {
    Open(parsed, aes)
  }

  /** `decryptWithPrivateKey(encryptedPackage, privateKeyString)`. The
      private key plays no part: the stored key is used. */
  function DecryptWithPrivateKey(parsed: Result<WalletPackage, string>, aes: Aes, privateKey: string): (r: Result<string, string>)
    ensures r.Failure? <==> parsed.Failure? || aes.decrypt(parsed.value.aesKey, parsed.value.iv, parsed.value.encryptedSecret).Failure?
    ensures r.Failure? ==> Js.StartsWith(r.error, DecryptPrefix)
    ensures r.Success? ==> r.value == Utf8.Decode(aes.decrypt(parsed.value.aesKey, parsed.value.iv, parsed.value.encryptedSecret).value)
  {
    Open(parsed, aes)
  }

  /** Whatever package `encryptForRecipients` produced, anybody holding it
      reads the secret back, with any provider, account or private key at
      all (a leading U+FEFF is dropped as a byte order mark). */
  lemma AnyoneCanOpen<Provider>(secret: string, recipients: seq<string>, aes: Aes, main: Draw, spare: Draw,
                                provider: Provider, account: string, privateKey: string)
    requires Sound(aes)
    requires EncryptForRecipients(secret, recipients, aes, main, spare).Success?
    ensures var pkg := EncryptForRecipients(secret, recipients, aes, main, spare);
      DecryptWithWallet(pkg, aes, provider, account) == DecryptWithPrivateKey(pkg, aes, privateKey)
    ensures var pkg := EncryptForRecipients(secret, recipients, aes, main, spare);
      (|secret| == 0 || secret[0] != Utf8.ByteOrderMark) ==> DecryptWithPrivateKey(pkg, aes, privateKey) == Success(secret)
    ensures var pkg := EncryptForRecipients(secret, recipients, aes, main, spare);
      (|secret| > 0 && secret[0] == Utf8.ByteOrderMark) ==> DecryptWithPrivateKey(pkg, aes, privateKey) == Success(secret[1..])
  {
    var p := EncryptForRecipients(secret, recipients, aes, main, spare).value;
    assert aes.decrypt(p.aesKey, p.iv, aes.encrypt(p.aesKey, p.iv, Utf8.Encode(secret)).value) == Success(Utf8.Encode(secret));
    Utf8.DecodeEncode(secret);
  }
}
