# Distributed Shamir Secret Sharing — a Dafny model of the browser client

The system splits a secret into shares that live in per-share contracts on
an Ethereum chain, and lets the owners of enough shares rebuild it. This
project models the client side of that in Dafny and proves what the
client's code does:

- **GF(2^8) arithmetic.** Addition is exclusive or. Multiplication is the
  shift-and-add loop reduced by `0x11B`. The inverse is a 256-entry table,
  and division refuses a zero divisor. Every table entry is proved to be an
  inverse, and the client's multiplication loop is proved to be the field
  product.
- **Lagrange interpolation at 0.** `ShamirClient.interpolate` fails exactly
  when two shares have the same index. Otherwise it evaluates the unique
  polynomial of degree below n through the shares. So `reconstructSecret`,
  given shares made as the splitting side makes them, returns the secret,
  in any share order.
- **Share decoding.** `safelyConvertBytes` accepts byte arrays, `0x`
  strings and ethers-style `{_hex}` objects. In `reconstructSecret` the last
  byte of a share is its index and the rest are its values. The model
  gives each rejected input the source's message, including a `_hex` that is
  not a string; arrays of non-numbers are not represented.
- **The hex and UTF-8 codecs** the encryption helpers use to put text on
  chain. `hexToBytes(bytesToHex(b)) == b` holds for every byte string.
  `fromHex(toHex(s)) == s` holds except for a leading U+FEFF, which
  `TextDecoder` drops as a byte order mark.
- **The two encryption envelopes.**
  - `WalletIntegratedEncryption` stores the AES key in the clear, so
    anyone holding the package can open it. The wallet path and the
    private-key path are the same computation.
  - `AsymmetricEncryption` wraps the AES key once per recipient under an
    ECDH-derived key. A recipient whose derived key unwraps their own
    entry opens the package.
- **The salvage routines of `DirectReconstruction`.** These are brace
  search, printable-ASCII cleaning, the balanced-brace matcher, strict hex
  parsing and fixed-offset structure recreation.
- **The step machine of `ShamirDebugTool`,** including its JSON marker
  search, and the two checks of `DebugPanel`.
- **The pure rules of the main page `App`:** share selection, owner rows,
  and the checks made before split and reconstruction. Once both count
  fields were typed into, the threshold check compares them as text, so 10
  parts with threshold 3 are refused.
- **`ShamirVisualization`'s simulation.** It is a scheme of its own over
  the integers modulo 256. The model states what it computes. With
  threshold 2 it is proved to give the secret back when the two chosen
  shares' indices differ by an odd number. When they differ by an even
  number it can return a wrong byte: the secret byte 0 with coefficient 1,
  rebuilt from shares 1 and 3, comes back as 250. The same pipeline with
  GF(2^8) arithmetic is proved to give the secret back from any `threshold`
  distinct shares.

JSON, Web Crypto, ECDH, `ethers.utils` and randomness are oracles: they are
passed in as function parameters, and the envelope lemmas assume only the
laws they state (for instance, AES-GCM decrypts what it encrypted). Text is
a sequence of Unicode scalar values. Bytes are the integers 0..255.

Modules: `Wrappers`, `Bits`, `GF256`, `GF256Inverse`, `Polynomial`,
`Lagrange`, `Js`, `Utf8`, `HexCodec`, `ShamirClient`, `Recovery`,
`WebCrypto`, `WalletEnvelope`, `AsymmetricEnvelope`, `DirectReconstruction`,
`DebugTool`, `DebugPanel`, `App`, `Visualization`.

## Model

| member | source | states |
|---|---|---|
| GF256.AddComm | frontend/src/ShamirClient.js:8 | addition is commutative |
| GF256.AddAssoc | frontend/src/ShamirClient.js:8 | addition is associative |
| GF256.AddSelf | frontend/src/ShamirClient.js:8 | every byte is its own additive inverse, so the `x - x_j` of interpolation is an addition |
| GF256.AddZero | frontend/src/ShamirClient.js:8 | 0 is the additive identity on both sides |
| GF256.AddCancel | frontend/src/ShamirClient.js:8 | `a + b == c` can be solved for either operand |
| GF256.MulComm | frontend/src/ShamirClient.js:11-32 | the product is commutative |
| GF256.MulAssoc | frontend/src/ShamirClient.js:11-32 | the product is associative |
| GF256.MulOneLeft | frontend/src/ShamirClient.js:11-32 | 1 is a left identity |
| GF256.MulOneRight | frontend/src/ShamirClient.js:11-32 | 1 is a right identity |
| GF256.MulZero | frontend/src/ShamirClient.js:11-32 | 0 annihilates on both sides |
| GF256.MulDistLeft | frontend/src/ShamirClient.js:8-32 | the product distributes over addition on the left |
| GF256.MulDistRight | frontend/src/ShamirClient.js:8-32 | the product distributes over addition on the right |
| ShamirClient.SourceMul | frontend/src/ShamirClient.js:11-32 | the client's loop, with unmasked `temp_a` and `& 0xFF` at the end, computes the field product |
| GF256Inverse.Inverse | frontend/src/ShamirClient.js:43-68 | inverting fails, with the "Cannot invert zero" message, exactly for 0 |
| GF256Inverse.Div | frontend/src/ShamirClient.js:35-40 | division fails exactly for a zero divisor, with the "Division by zero" message; a zero dividend gives 0 |
| GF256Inverse.InverseTableCorrect | frontend/src/ShamirClient.js:48-65 | every non-zero table entry times its index is 1 |
| GF256Inverse.InverseCorrect | frontend/src/ShamirClient.js:43-68 | what `inverse` returns is a two-sided inverse |
| GF256Inverse.TableInverseCorrect | frontend/src/ShamirClient.js:48-67 | the table entry of a non-zero byte is its two-sided inverse |
| GF256Inverse.InverseUnique | frontend/src/ShamirClient.js:43-68 | any `c` with `a * c == 1` is what `inverse(a)` returns |
| GF256Inverse.DivCorrect | frontend/src/ShamirClient.js:35-40 | a quotient times the divisor gives the dividend back |
| GF256Inverse.DivUnique | frontend/src/ShamirClient.js:35-40 | the quotient is the only `q` with `q * b == a` |
| GF256Inverse.DivByInverse | frontend/src/ShamirClient.js:35-40 | division by a non-zero byte is multiplication by its table inverse, the zero-dividend short cut included |
| GF256Inverse.NoZeroDivisors | frontend/src/ShamirClient.js:11-32 | a zero product has a zero factor |
| GF256Inverse.MulCancel | frontend/src/ShamirClient.js:11-32 | a non-zero factor cancels |
| GF256Inverse.PeasantBridge | frontend/src/ShamirClient.js:11-32 | the shift-and-add loop on 8-bit vectors computes the same product as on integers |
| Polynomial.EvalAtZero | frontend/src/ShamirClient.js:195 | interpolating at 0 targets the constant term, the secret byte |
| Polynomial.EvalAdd | frontend/src/ShamirClient.js:96-97 | the sum of two polynomials evaluates to the sum of their values |
| Polynomial.EvalScale | frontend/src/ShamirClient.js:96 | a scaled polynomial evaluates to the scaled value |
| Polynomial.EvalMulLinear | frontend/src/ShamirClient.js:88-91 | multiplying by `(x + a)` multiplies every value by `x + a` |
| Polynomial.SynthDiv | frontend/src/ShamirClient.js:72-101 | synthetic division by `(x + a)` leaves the remainder `p(a)` |
| Polynomial.ManyRoots | frontend/src/ShamirClient.js:72-101 | a polynomial with at most n coefficients and n distinct roots is zero everywhere |
| Polynomial.Uniqueness | frontend/src/ShamirClient.js:72-101 | two polynomials of degree below n that agree on n distinct points agree everywhere |
| Lagrange.Interpolate | frontend/src/ShamirClient.js:72-101 | `interpolate` fails, with the division-by-zero message, exactly when two shares have the same x |
| Lagrange.BasisFails | frontend/src/ShamirClient.js:84-93 | the inner loop for share i fails exactly when it meets another share with i's x |
| Lagrange.SumFails | frontend/src/ShamirClient.js:81-98 | the outer loop fails exactly when a visited share collides with another |
| Lagrange.ClashIffNotDistinct | frontend/src/ShamirClient.js:81-98 | some collision exists exactly when the x coordinates are not pairwise distinct |
| Lagrange.DivIsDivision | frontend/src/ShamirClient.js:35-40 | the field division obeys the laws the interpolation proofs use |
| Lagrange.InterpolateAtShare | frontend/src/ShamirClient.js:72-101 | interpolating at a share's x gives that share's y |
| Lagrange.InterpolateCorrect | frontend/src/ShamirClient.js:72-101 | with distinct x, interpolation evaluates every polynomial of degree below n through the shares, at any x |
| Lagrange.InterpolateSecret | frontend/src/ShamirClient.js:72-101 | interpolating such shares at 0 gives the polynomial's constant term |
| Lagrange.InterpolateReorder | frontend/src/ShamirClient.js:72-101 | the order of the shares changes neither the value nor the error |
| ShamirClient.SafelyConvertBytes | frontend/src/ShamirClient.js:104-138 | arrays convert element-wise modulo 256; `{_hex}` and `0x` strings decode pairwise; null, a non-string `_hex` ("data._hex.startsWith is not a function"), other values, an empty `_hex` and a string without `0x` fail with the source's messages |
| ShamirClient.ConvertBytesToHex | frontend/src/ShamirClient.js:112-133 | a `0x` string or `{_hex}` object written by `bytesToHex` converts back to the same bytes |
| ShamirClient.ConvertStringAsObject | frontend/src/ShamirClient.js:112-133 | a `0x` string and an object carrying it as `_hex` convert alike |
| ShamirClient.ParseShare | frontend/src/ShamirClient.js:152-165 | a share parses exactly when it converts to a non-empty byte string, whose last byte is x and the rest the y values |
| ShamirClient.SplitIndex | frontend/src/ShamirClient.js:155-165 | an empty conversion is refused with "Share data is empty"; otherwise the split is `ys + [x]` |
| ShamirClient.MapUntilFailure | frontend/src/ShamirClient.js:151-166 | a throwing `map` either gives every result in order or the first error |
| ShamirClient.ParseShares | frontend/src/ShamirClient.js:151-166 | all shares parse, in order, or the error is the first failing share's |
| ShamirClient.Column | frontend/src/ShamirClient.js:189-192 | the points for byte position i pair each share's x with its i-th y |
| ShamirClient.InterpolateColumns | frontend/src/ShamirClient.js:187-196 | the column loop fails with the division-by-zero message exactly when indices repeat; otherwise byte i is column i interpolated at 0 |
| ShamirClient.ReconstructSecret | frontend/src/ShamirClient.js:141-203 | fewer than two shares are refused before the `try`; every inner error is re-thrown with the "Failed to reconstruct secret: " prefix |
| ShamirClient.ReconstructSecretOutcome | frontend/src/ShamirClient.js:168-198 | for parsed shares: an empty share gives "no data", unequal lengths "inconsistent data lengths"; otherwise success exactly when indices are distinct, each byte the interpolation of its column |
| ShamirClient.ReconstructSecretBadShare | frontend/src/ShamirClient.js:151-166 | a share that fails to parse fails the reconstruction with that share's error, prefixed |
| ShamirClient.BytesToString | frontend/src/ShamirClient.js:206-216 | the decoded text has at most one character per byte |
| ShamirClient.BytesToStringOfText | frontend/src/ShamirClient.js:206-209 | encoded text decodes back to itself, except that a leading U+FEFF is dropped |
| Recovery.ReconstructSecretCorrect | frontend/src/ShamirClient.js:141-203 | shares made from one polynomial of degree below the share count per secret byte, at distinct indices, reconstruct the secret |
| Recovery.ReconstructDuplicateIndex | frontend/src/ShamirClient.js:187-202 | a repeated share index fails with the prefixed division-by-zero message |
| Recovery.ReconstructIndicesOnly | frontend/src/ShamirClient.js:169-171 | shares that carry only their index fail with the prefixed "no data" message |
| Recovery.ParseSharesFor | frontend/src/ShamirClient.js:151-166 | such shares parse into their index and their polynomial values, in order |
| Recovery.TryReconstructFor | frontend/src/ShamirClient.js:168-196 | such shares pass the emptiness and length checks, so the result is the column interpolation |
| Recovery.ColumnsRecover | frontend/src/ShamirClient.js:187-196 | when each column lies on its polynomial, every column gives that polynomial's constant term |
| Js.ToUint8 | frontend/src/ShamirClient.js:106-107 | storing into a `Uint8Array` takes an integer modulo 256 and NaN to 0 |
| Js.HexRun | frontend/src/ShamirClient.js:117 | `parseInt(_, 16)` reads the longest run of hex digits |
| Js.PairByteDigits | frontend/src/WalletIntegratedEncryption.js:320-322 | a pair of hex digits stores its base-16 value |
| Js.PairByteNotValidated | frontend/src/WalletIntegratedEncryption.js:320-322 | a pair starting with a non-digit stores 0; a digit then a non-digit stores the one digit's value |
| Js.HexCharOfValue | frontend/src/WalletIntegratedEncryption.js:329-331 | a lower-case digit is the digit `toString(16)` writes for its value |
| Js.ByteHexDigits | frontend/src/WalletIntegratedEncryption.js:329-331 | `toString(16).padStart(2, '0')` writes two lower-case digits, high nibble first |
| Js.PairByteOfByteHex | frontend/src/WalletIntegratedEncryption.js:320-331 | reading back the two digits written for a byte gives the byte |
| Utf8.EncodeChar | frontend/src/WalletIntegratedEncryption.js:336 | a character encodes in one to four bytes, one byte exactly for ASCII |
| Utf8.Encode | frontend/src/WalletIntegratedEncryption.js:336 | a string encodes in one to four bytes per character |
| Utf8.EncodeAppend | frontend/src/WalletIntegratedEncryption.js:336 | encoding distributes over concatenation |
| Utf8.Accepted | frontend/src/WalletIntegratedEncryption.js:350 | the decoder consumes continuation bytes while they are in the allowed range, at most the needed count |
| Utf8.CodePointScalar | frontend/src/WalletIntegratedEncryption.js:350 | every complete sequence the decoder accepts is a scalar value in the range its length is shortest for |
| Utf8.DecodeRaw | frontend/src/WalletIntegratedEncryption.js:350 | the decoder emits at most one character per byte |
| Utf8.Decode | frontend/src/WalletIntegratedEncryption.js:350 | `TextDecoder.decode` emits at most one character per byte |
| Utf8.DecodeEncodeChar | frontend/src/WalletIntegratedEncryption.js:336-350 | the decoder reads one encoded character back and resumes right after its bytes |
| Utf8.DecodeRawEncode | frontend/src/WalletIntegratedEncryption.js:336-350 | decoding, before the byte order mark is looked at, inverts encoding |
| Utf8.DecodeEncode | frontend/src/WalletIntegratedEncryption.js:336-350 | decoding inverts encoding, except that a leading U+FEFF is dropped |
| HexCodec.StripPrefix | frontend/src/WalletIntegratedEncryption.js:317 | one leading `0x` is removed if present, and nothing else |
| HexCodec.DecodePairs | frontend/src/WalletIntegratedEncryption.js:318-322 | byte i is the pair at 2i read by `parseInt(_, 16)`; an odd trailing character is ignored |
| HexCodec.HexToBytes | frontend/src/WalletIntegratedEncryption.js:316-325 | `hexToBytes` yields half as many bytes as there are characters after the prefix |
| HexCodec.JoinHex | frontend/src/WalletIntegratedEncryption.js:329-331 | each byte is written as its two lower-case digits, high nibble first |
| HexCodec.BytesToHex | frontend/src/WalletIntegratedEncryption.js:328-332 | `bytesToHex` writes `0x` and then two lower-case hex digits per byte |
| HexCodec.ToHex | frontend/src/WalletIntegratedEncryption.js:335-339 | `toHex` writes `0x` and two digits per UTF-8 byte |
| HexCodec.FromHex | frontend/src/WalletIntegratedEncryption.js:342-350 | `fromHex` yields at most one character per digit pair |
| HexCodec.DecodeJoin | frontend/src/WalletIntegratedEncryption.js:316-332 | reading back the joined digits gives every byte back |
| HexCodec.HexToBytesOfBytesToHex | frontend/src/WalletIntegratedEncryption.js:316-332 | `hexToBytes(bytesToHex(b)) == b` for every byte string |
| HexCodec.HexToBytesPrefixOptional | frontend/src/WalletIntegratedEncryption.js:316-325 | the `0x` prefix is optional for digits that do not themselves start with `0x` |
| HexCodec.HexToBytesDoublePrefix | frontend/src/WalletIntegratedEncryption.js:316-325 | a second `0x` is read as a digit pair and stores 0 |
| HexCodec.FromHexToHex | frontend/src/WalletIntegratedEncryption.js:335-350 | `fromHex(toHex(s)) == s`, except that a leading U+FEFF is dropped |
| WalletEnvelope.Seal | frontend/src/WalletIntegratedEncryption.js:150-187 | the package holds a 12-byte IV, the raw key, the recipients and the AES-GCM encryption of the secret's UTF-8 bytes under them |
| WalletEnvelope.FallbackEncryptForRecipients | frontend/src/WalletIntegratedEncryption.js:150-187 | the fallback package is marked as such, with a 12-byte IV and the recipients kept for reference |
| WalletEnvelope.EncryptForRecipients | frontend/src/WalletIntegratedEncryption.js:190-234 | the main path, or the fallback exactly when the main path throws; the package's key encrypts the secret to the stored ciphertext |
| WalletEnvelope.Open | frontend/src/WalletIntegratedEncryption.js:237-313 | opening fails exactly when parsing or decryption fails, with the "Failed to decrypt: " prefix, and otherwise decodes the plaintext |
| WalletEnvelope.DecryptWithWallet | frontend/src/WalletIntegratedEncryption.js:237-273 | fails exactly when parsing or decryption fails, with the "Failed to decrypt: " prefix, and otherwise decodes the plaintext; the provider and account are never used |
| WalletEnvelope.DecryptWithPrivateKey | frontend/src/WalletIntegratedEncryption.js:276-313 | the same, with the private key never used |
| WalletEnvelope.AnyoneCanOpen | frontend/src/WalletIntegratedEncryption.js:190-313 | both decryption paths are the same computation and return the secret for any key material (a leading U+FEFF dropped) |
| AsymmetricEnvelope.KeyIvDraw | frontend/src/AsymmetricEncryption.js:130 | each recipient's key IV is 12 bytes of the random stream |
| AsymmetricEnvelope.WrapKeys | frontend/src/AsymmetricEncryption.js:103-145 | entry k is the AES key encrypted under the secret shared with recipient k, with its own IV |
| AsymmetricEnvelope.EncryptForRecipients | frontend/src/AsymmetricEncryption.js:70-157 | the package carries the ephemeral public key, a 12-byte IV, the ciphertext of the secret under the AES key, and one wrapped key per recipient, in order |
| AsymmetricEnvelope.Unwrap | frontend/src/AsymmetricEncryption.js:196-227 | an entry unwraps exactly when decryption and the raw-key import both succeed |
| AsymmetricEnvelope.FirstUnwrap | frontend/src/AsymmetricEncryption.js:195-228 | the loop stops at the first entry that unwraps, and finds none only when none does |
| AsymmetricEnvelope.DecryptWithPrivateKey | frontend/src/AsymmetricEncryption.js:160-249 | no unwrappable entry gives "This key cannot access the secret"; success needs a parsed package and a derived secret |
| AsymmetricEnvelope.RecipientCanOpen | frontend/src/AsymmetricEncryption.js:70-249 | a recipient whose derived secret matches the one used for their entry gets the secret back (a leading U+FEFF dropped) |
| AsymmetricEnvelope.FirstUnwrapFinds | frontend/src/AsymmetricEncryption.js:195-228 | when entry m unwraps to the key and no earlier entry to another key, the loop returns that key |
| AsymmetricEnvelope.NoEntryNoPayload | frontend/src/AsymmetricEncryption.js:230-232 | without an unwrappable entry the payload is never looked at |
| DirectReconstruction.ParseLogged | frontend/src/DirectReconstruction.js:95-97 | the parse succeeds exactly when `JSON.parse` does and gives neither `null` nor `undefined`; for those two, the `Object.keys` call in the same try throws "Cannot convert undefined or null to object" |
| DirectReconstruction.RequireFields | frontend/src/DirectReconstruction.js:125-127 | the package goes on exactly when `encryptedSecret`, `aesKey` and `iv` are all truthy; a null or undefined value would throw on the property read, which the routes never reach because `ParseLogged` already rejects those |
| DirectReconstruction.RequireFieldsTruthinessOnly | frontend/src/DirectReconstruction.js:125-127 | an empty array passes the check, and an empty string does not |
| DirectReconstruction.IndexOf | frontend/src/DirectReconstruction.js:103 | `indexOf` finds the first occurrence, or -1 when there is none |
| DirectReconstruction.LastIndexOf | frontend/src/DirectReconstruction.js:104 | `lastIndexOf` finds the last occurrence, or -1 when there is none |
| DirectReconstruction.BraceSpan | frontend/src/DirectReconstruction.js:103-121 | the text from the first `{` to the last `}`, when the last comes after the first; otherwise "Could not locate JSON structure" |
| DirectReconstruction.BraceSpanOf | frontend/src/DirectReconstruction.js:103-107 | an object with no `{` before it and no `}` after it is cut out exactly |
| DirectReconstruction.Clean | frontend/src/DirectReconstruction.js:220 | cleaning keeps only printable ASCII, and changes nothing in text that is all printable |
| DirectReconstruction.CleanAppend | frontend/src/DirectReconstruction.js:220 | cleaning distributes over concatenation |
| DirectReconstruction.CleanChar | frontend/src/DirectReconstruction.js:220 | one character is kept exactly when it is printable |
| DirectReconstruction.MatchEnd | frontend/src/DirectReconstruction.js:241-251 | the brace counter stops at the first position where the depth returns to 0 |
| DirectReconstruction.Locate | frontend/src/DirectReconstruction.js:228-251 | the start is the first `{`, the end the first place the depth returns to 0 |
| DirectReconstruction.ExtractBalanced | frontend/src/DirectReconstruction.js:228-276 | the extracted text is the first balanced object, or "Could not locate valid JSON structure" |
| DirectReconstruction.BalancedPrefixes | frontend/src/DirectReconstruction.js:241-251 | inside the match the depth stays positive, and the match ends with `}` |
| DirectReconstruction.EmbeddedObjectFound | frontend/src/DirectReconstruction.js:228-254 | a balanced object with no `{` before it is found whole, whatever follows |
| DirectReconstruction.CleaningRecovers | frontend/src/DirectReconstruction.js:217-254 | a printable balanced object buried in garbage is recovered when the cleaned garbage before it opens no brace |
| DirectReconstruction.HexProcessingBytes | frontend/src/DirectReconstruction.js:150-161 | the digits after an optional `0x` must all be hex ("Contains invalid hex characters"); byte i is then pair i's value |
| DirectReconstruction.HexProcessingOfBytesToHex | frontend/src/DirectReconstruction.js:150-161 | what `bytesToHex` wrote passes the check and reads back unchanged |
| DirectReconstruction.DirectJson | frontend/src/DirectReconstruction.js:93-127 | parse the whole text, else (also when it parses to `null` or `undefined`) the brace span, then require the fields; each failure keeps its own message, a `null` from the span's parse being "Failed to parse extracted JSON: Cannot convert undefined or null to object" |
| DirectReconstruction.DirectJsonOfNull | frontend/src/DirectReconstruction.js:93-121 | the text `null` parses, the key listing throws, and with no brace the route fails with "Could not locate JSON structure in the data" |
| DirectReconstruction.FixWithDirectJson | frontend/src/DirectReconstruction.js:76-136 | no raw data stops early; an `arrayify` error is reported with the prefix; otherwise the package handed to `decryptSecret` is `DirectJson`'s on the decoded bytes, and its error is reported with the prefix |
| DirectReconstruction.HexProcessing | frontend/src/DirectReconstruction.js:150-194 | invalid hex and a missing brace span fail as such; a parse or missing-field failure is reported as "Failed to parse JSON" |
| DirectReconstruction.FixWithHexProcessing | frontend/src/DirectReconstruction.js:139-200 | no raw data stops early; otherwise the package handed on is `HexProcessing`'s, and its error is reported with the prefix |
| DirectReconstruction.CharacterCleaning | frontend/src/DirectReconstruction.js:217-276 | the balanced object of the cleaned text is parsed and must carry the fields |
| DirectReconstruction.FixWithCharacterCleaning | frontend/src/DirectReconstruction.js:203-282 | no raw data stops early; an `arrayify` error is reported with the prefix; otherwise the package handed on is `CharacterCleaning`'s on the decoded bytes, and its error is reported with the prefix |
| DirectReconstruction.DirectJsonRecovers | frontend/src/DirectReconstruction.js:93-130 | a package object with garbage around it that breaks `JSON.parse` is still handed on, when the garbage in front opens no brace and the garbage behind closes none |
| DirectReconstruction.HexProcessingRecovers | frontend/src/DirectReconstruction.js:150-188 | the same garbage-wrapped text, written with `bytesToHex`, is handed on by the hex route (unless it starts with U+FEFF) |
| DirectReconstruction.CharacterCleaningRecovers | frontend/src/DirectReconstruction.js:217-270 | a printable balanced package object is handed on by the cleaning route whatever surrounds it, when the cleaned garbage in front opens no brace |
| DirectReconstruction.FixWithDirectJsonRecovers | frontend/src/DirectReconstruction.js:76-130 | when `arrayify` reads back the UTF-8 bytes of a garbage-wrapped package text, `fixWithDirectJson` hands the package object to `decryptSecret` |
| DirectReconstruction.FixWithHexProcessingRecovers | frontend/src/DirectReconstruction.js:139-188 | the `bytesToHex` form of a garbage-wrapped package text is handed on whole by `fixWithHexProcessing` |
| DirectReconstruction.FixWithCharacterCleaningRecovers | frontend/src/DirectReconstruction.js:203-270 | a printable balanced package object read back by `arrayify` is handed on by `fixWithCharacterCleaning` whatever surrounds it, a leading U+FEFF included |
| DirectReconstruction.RecreateStructure | frontend/src/DirectReconstruction.js:310-314 | the IV is the first 12 bytes, the ciphertext the bytes up to 100, the key the last 32 |
| DirectReconstruction.ShortInputKey | frontend/src/DirectReconstruction.js:313 | below 32 bytes the "key" is the whole input for n ≤ 16, and only the last 32 - n bytes for 16 < n < 32 |
| DirectReconstruction.FixWithStructureRecreation | frontend/src/DirectReconstruction.js:285-332 | no raw data stops early; otherwise the mock package of the arrayified bytes, or the prefixed arrayify error |
| DebugTool.Scan | frontend/src/ShamirDebugTool.js:254-269 | the scan records every start position in its range where the marker matches, in increasing order |
| DebugTool.FindMarkerAsWritten | frontend/src/ShamirDebugTool.js:252-270 | the loop as written reports every match except one ending on the last byte |
| DebugTool.FindMarker | frontend/src/ShamirDebugTool.js:252-270 | the corrected bound reports exactly the positions where the marker matches, in increasing order |
| DebugTool.AsWrittenMissesOnlyTheLast | frontend/src/ShamirDebugTool.js:254 | the loop as written misses exactly the match that ends on the last byte |
| DebugTool.ClosingBraceNotReported | frontend/src/ShamirDebugTool.js:254 | `{}` yields no "JSON Object End" as written, and one at position 1 when corrected |
| DebugTool.FinalBraceMissed | frontend/src/ShamirDebugTool.js:254 | a final `}` is never reported as written, and always when corrected |
| DebugTool.EncodeAscii | frontend/src/ShamirDebugTool.js:253 | ASCII text encodes one byte per character |
| DebugTool.MarkerCodes | frontend/src/ShamirDebugTool.js:253-279 | every marker is ASCII, so its encoding is its character codes |
| DebugTool.Collect | frontend/src/ShamirDebugTool.js:247-282 | every recorded pattern is a match of one of the markers; with the loop as written none ends on the last byte |
| DebugTool.CollectComplete | frontend/src/ShamirDebugTool.js:247-282 | with the loop as written, every occurrence of a marker that ends before the last byte is recorded; with the corrected loop, every occurrence |
| DebugTool.CollectAll | frontend/src/ShamirDebugTool.js:247-282 | the same completeness, for every marker and position at once |
| DebugTool.CollectOrdered | frontend/src/ShamirDebugTool.js:273-281 | with either loop, patterns are grouped by marker in call order, positions increasing within each |
| DebugTool.FindBytePatterns | frontend/src/ShamirDebugTool.js:247-282 | the search as written: every pattern is a match of one of the seven markers, and none ends on the last byte |
| DebugTool.FindBytePatternsComplete | frontend/src/ShamirDebugTool.js:247-282 | the search as written records every marker occurrence that ends before the last byte |
| DebugTool.FindBytePatternsCorrected | frontend/src/ShamirDebugTool.js:247-282 | the search with the corrected bound records only marker matches |
| DebugTool.FindBytePatternsCorrectedComplete | frontend/src/ShamirDebugTool.js:247-282 | the search with the corrected bound records every marker occurrence |
| DebugTool.FinalMarkerMissed | frontend/src/ShamirDebugTool.js:254 | a marker ending on the last byte is never in the search as written, and always in the corrected one |
| DebugTool.ClosingBraceOfPackage | frontend/src/ShamirDebugTool.js:254 | for the bytes of `{}` the search as written reports no "JSON Object End", the corrected one reports it at position 1 |
| DebugTool.MarkerNamesDistinct | frontend/src/ShamirDebugTool.js:273-279 | the seven marker names are distinct |
| DebugTool.First | frontend/src/ShamirDebugTool.js:84 | `slice(0, n)` keeps a prefix of at most n elements |
| DebugTool.TextRepresentation | frontend/src/ShamirDebugTool.js:140 | text up to 100 characters is shown whole; longer text as its first 100 characters and `...` |
| DebugTool.PreviewKeepsLook | frontend/src/ShamirDebugTool.js:153 | the JSON-looking test on the preview agrees with it on the full text |
| DebugTool.ClearData | frontend/src/ShamirDebugTool.js:29-36 | clearing resets the counter to 0 and empties shares, result, text, the visual bytes and patterns, and the error |
| DebugTool.FetchLoop | frontend/src/ShamirDebugTool.js:58-93 | one record per index, in order, with its address, data and 20-byte preview; the loop fails exactly when a lookup fails |
| DebugTool.FetchShares | frontend/src/ShamirDebugTool.js:39-104 | missing inputs set only the error; otherwise the counter ends at 2 with the shares or at 1 with the prefixed error |
| DebugTool.AfterReconstruction | frontend/src/ShamirDebugTool.js:130-170 | success moves to 4 with the bytes, a 100-byte view, the 100-character text preview, the JSON look, the patterns of the search as written and an empty error; failure stays at 3 with the prefixed error |
| DebugTool.ReconstructWithShamir | frontend/src/ShamirDebugTool.js:107-170 | no shares sets only the error; otherwise the tool reaches step 4 exactly when `reconstructSecret` succeeds, holding its bytes, and else stays at 3 with its prefixed error |
| DebugTool.ReconstructWithShamirRecovers | frontend/src/ShamirDebugTool.js:107-170 | fetched shares made from polynomials of degree below their number at distinct indices take the tool to step 4 with the secret's bytes and no error |
| DebugTool.DecryptPackage | frontend/src/ShamirDebugTool.js:203-229 | the manual key is used when set, else the wallet, else "No decryption keys available" |
| DebugTool.DecryptReconstructedData | frontend/src/ShamirDebugTool.js:176-244 | no result sets only the error; success moves to 6 with the text and an empty error, failure stays at 5 with the prefixed error; the visual bytes and patterns are left alone |
| DebugTool.StepsPreserveConsistency | frontend/src/ShamirDebugTool.js:29-244 | every action keeps the counter and the data it implies in step |
| DebugPanel.InlineFromHex | frontend/src/DebugPanel.js:36-45 | the panel's own `fromHex` loop computes the codec's `fromHex` |
| DebugPanel.CheckRoundTrip | frontend/src/DebugPanel.js:77-86 | reading `data` of a null result throws into the parse-failure branch; otherwise the match is string equality |
| DebugPanel.RunDataTest | frontend/src/DebugPanel.js:21-94 | the hex round trip gives the text back (but a leading U+FEFF), and a non-JSON text wrapped as `{data}` round-trips and matches |
| DebugPanel.NonPrintableCount | frontend/src/DebugPanel.js:170 | the count of bytes outside 32..126 never exceeds the length |
| DebugPanel.AnalyzeBytes | frontend/src/DebugPanel.js:159-171 | the length, the first 20 bytes, the number of zero bytes and of non-printable bytes, with zeroes ≤ non-printable ≤ length |
| DebugPanel.InspectRawData | frontend/src/DebugPanel.js:96-182 | nothing without raw data; otherwise digits that read back to the bytes, their UTF-8 text and the statistics |
| App.Decimal | frontend/src/App.js:457 | the `${n}` text of a number is non-empty and all decimal digits |
| App.DecimalDenotes | frontend/src/App.js:457 | that text reads back as the number, and starts with `0` exactly when the number is 0 |
| App.FindIndex | frontend/src/App.js:530-532 | `findIndex` gives -1 exactly when the pair is absent, else its first position |
| App.IsShareSelected | frontend/src/App.js:544-548 | a share is selected exactly when its pair is in the list |
| App.ToggleShareSelection | frontend/src/App.js:528-541 | a present pair loses one occurrence; an absent pair is appended |
| App.ToggleRemovesFirstOccurrence | frontend/src/App.js:534-535 | the removal takes out exactly the first occurrence and keeps the rest in order |
| App.ToggleSplices | frontend/src/App.js:530-535 | a present pair is found inside the list, and the toggle splices out the element at that index |
| App.ToggleFlips | frontend/src/App.js:528-548 | on a duplicate-free list toggling flips that pair's selection, keeps every other pair's, and keeps the list duplicate-free |
| App.ToggleTwice | frontend/src/App.js:528-541 | selecting and then deselecting a share restores the exact list |
| App.AddOwnerAddress | frontend/src/App.js:390-393 | one empty row is appended to both the owner and the key lists, so paired lists stay paired |
| App.SpliceOne | frontend/src/App.js:398 | `splice(index, 1)` removes one element when the start is inside the array, none otherwise |
| App.RemoveOwnerAddress | frontend/src/App.js:396-404 | the same row goes from both lists, which stay paired and keep every other row in order |
| App.RemoveUndoesAdd | frontend/src/App.js:390-404 | removing the row just added gives the form back |
| App.ResetForm | frontend/src/App.js:510-515 | the reset sets the defaults and one empty owner row, leaving the key rows as they were |
| App.ResetUnpairs | frontend/src/App.js:510-515 | with other than one key row, the reset leaves owner and key rows unpaired |
| App.FilterOwners | frontend/src/App.js:451-453 | the filter keeps exactly the non-empty entries that `isAddress` accepts |
| App.SplitChecks | frontend/src/App.js:424-459 | the checks in source order, each failure with its own message (the owner-count one showing `parts` as typed); the split goes on exactly when all pass, with the valid owners when there are exactly `parts` of them and none otherwise |
| App.ValidateSplitAsWritten | frontend/src/App.js:439-448 | as written: once both count fields were edited they hold text (lines 967 and 979), and `threshold > parts` compares the texts, so the threshold check fails whenever the threshold's text sorts after the parts' text |
| App.ValidateSplit | frontend/src/App.js:424-459 | as intended: the split goes on exactly when connected, with a secret and a key, 2 ≤ threshold ≤ parts as numbers, and either no valid owners or exactly `parts`; each failure has its own message |
| App.TenPartsThreeRefused | frontend/src/App.js:445-448 | 10 parts with threshold 3, both typed in, are refused with "Threshold must be at least 2 and not greater than parts", while the numeric check lets them through |
| App.AsWrittenAgreesOnSameLength | frontend/src/App.js:445 | when either field still holds its initial number, or both texts have the same number of digits, the check as written decides as intended |
| App.TextLessIsNumeric | frontend/src/App.js:445 | on digit strings of the same length the string order of ECMA-262 section 7.2.13 is the numeric order |
| App.BlankOwnersDefaultToCaller | frontend/src/App.js:451-459 | blank owner rows pass the owner check for any `parts` |
| App.RelevantShareIds | frontend/src/App.js:566-568 | the ids sent are exactly the selected shares of that secret |
| App.OtherSecretsIgnored | frontend/src/App.js:528-568 | toggling a share of another secret never changes what is sent for this one |
| App.DistinctShareIds | frontend/src/App.js:528-568 | a duplicate-free selection sends each share id at most once |
| App.CheckReconstruction | frontend/src/App.js:551-575 | the reconstruction goes on exactly when a secret and a key are set and enough shares are selected (any number when the threshold is unknown) |
| Visualization.ThresholdOptions | frontend/src/ShamirVisualization.js:313 | the selector offers exactly 2..n, in order |
| Visualization.JsRem | frontend/src/ShamirVisualization.js:150-151 | `%` keeps the sign of the dividend and agrees with the modulus on non-negative values |
| Visualization.Normalize | frontend/src/ShamirVisualization.js:135-139 | adding 256 to a negative value lands in 0..255 and stays congruent |
| Visualization.Coefficients | frontend/src/ShamirVisualization.js:46-57 | one list per secret byte: the byte, then `threshold - 1` random draws |
| Visualization.EvaluateAt | frontend/src/ShamirVisualization.js:68-79 | the evaluation loop computes the polynomial's value modulo 256 |
| Visualization.PowerTerm | frontend/src/ShamirVisualization.js:72-76 | the inner loop computes `coefficient * x^j` modulo 256 |
| Visualization.Shares | frontend/src/ShamirVisualization.js:63-89 | shares x = 1..n, each holding every byte polynomial's value at x modulo 256 |
| Visualization.Select | frontend/src/ShamirVisualization.js:102-108 | the selection keeps distinct draws in order until it holds `threshold` of them |
| Visualization.SelectionNeverEnds | frontend/src/ShamirVisualization.js:102-108 | with fewer shares than the threshold no finite run of draws ends the loop |
| Visualization.SearchInverse | frontend/src/ShamirVisualization.js:142-148 | the search finds the least k with `d·k ≡ 1 (mod 256)`, or leaves 1 when there is none |
| Visualization.InverseSearch | frontend/src/ShamirVisualization.js:142-148 | an odd denominator gets its least inverse; an even one gets 1 |
| Visualization.OddInverse | frontend/src/ShamirVisualization.js:142-148 | every odd number has an inverse modulo 256 |
| Visualization.BasisTerm | frontend/src/ShamirVisualization.js:131-153 | the basis loop keeps the term in 0..255 |
| Visualization.SumTerms | frontend/src/ShamirVisualization.js:128-156 | the sum stays in 0..255 |
| Visualization.Reconstruct | frontend/src/ShamirVisualization.js:117-159 | one byte per position, each in 0..255; `OddGapReconstructs` says when the bytes are the secret |
| Visualization.HasInverse | frontend/src/ShamirVisualization.js:135-148 | an odd denominator in -255..255, wrapped into 0..255, gets an inverse of the denominator itself modulo 256 |
| Visualization.GapInverses | frontend/src/ShamirVisualization.js:135-148 | both denominators of a pair of shares an odd distance apart get true inverses |
| Visualization.LineRecovered | frontend/src/ShamirVisualization.js:128-156 | two points of the line s + c·x modulo 256 at indices an odd distance apart sum back to s |
| Visualization.TwoSharesOddGap | frontend/src/ShamirVisualization.js:128-156 | the same for the share values the page computes |
| Visualization.OddGapReconstructs | frontend/src/ShamirVisualization.js:46-159 | with threshold 2, any two shares whose indices differ by an odd number give the secret back |
| Visualization.Pick | frontend/src/ShamirVisualization.js:110 | the selected shares are the shares at the drawn positions |
| Visualization.PickDistinct | frontend/src/ShamirVisualization.js:110 | distinct positions give shares with distinct indices |
| Visualization.SelectAndReconstruct | frontend/src/ShamirVisualization.js:102-159 | `threshold` shares with distinct indices, and one byte per position |
| Visualization.RunSimulation | frontend/src/ShamirVisualization.js:31-162 | n shares, `threshold` distinct selected ones, and as many reconstructed bytes as the secret has UTF-8 bytes |
| Visualization.EvenGapMisreconstructs | frontend/src/ShamirVisualization.js:117-159 | the secret byte 0 split with coefficient 1, rebuilt from shares 1 and 3, comes back as 250 |
| Visualization.FieldPolys | frontend/src/ShamirVisualization.js:46-57 | the coefficient lists read as GF(2^8) polynomials, entry for entry |
| Visualization.FieldShares | frontend/src/ShamirVisualization.js:63-89 | shares x = 1..n built with field arithmetic, each holding every polynomial's value at x |
| Visualization.FieldSimulation | frontend/src/ShamirVisualization.js:63-159 | the simulation with field arithmetic yields as many bytes as the secret has |
| Visualization.FieldSimulationRecovers | frontend/src/ShamirVisualization.js:117-159 | with field arithmetic, every selection of `threshold` distinct shares gives the secret back, which the page's success check at line 583 expects |
| Visualization.PickedFieldShares | frontend/src/ShamirVisualization.js:110 | the selected field shares have distinct indices and carry every polynomial's value at their index |
| Visualization.FieldSecrets | frontend/src/ShamirVisualization.js:46-57 | the constant terms are the secret's bytes and every polynomial has `threshold` coefficients |
| Visualization.FieldFixesEvenGap | frontend/src/ShamirVisualization.js:117-159 | the example the page gets wrong comes back as the byte 0 in the field |

## Left out

- JSON text: `JSON.parse` and `JSON.stringify` are parameters. A package is the object before it is stringified.
- Web Crypto: AES-GCM, key generation and import/export, and ECDH key agreement are oracles. The envelope lemmas assume only that decryption inverts encryption under the same key and IV.
- Randomness: `Math.random` and `getRandomValues` are inputs (a stream of draws). A generated key is an arbitrary input.
- The network, the wallet, the contracts and React: contract calls are oracles or are left out; React state is explicit values passed in and returned. The logging (`console`, `addLog`) and the animation timers are left out.
- `getMetaMaskPublicKey`, `generateEphemeralKeyPair`, `exportPublicKey` and the `AsymmetricEncryption` key import/export helpers only call Web Crypto or the wallet, so they are left out.
- `AsymmetricEncryption.toHex` and `fromHex` (frontend/src/AsymmetricEncryption.js:252-268) are the same code as the wallet codec's and are modelled once, in `HexCodec`.
- Strings: JavaScript strings are UTF-16. Here they are sequences of Unicode scalar values, so lone surrogates are not modelled, and the length of text with characters above U+FFFF counts scalar values rather than code units.
- ShamirClient.BytesToString: the hex fallback in the `catch` is not modelled, because a default `TextDecoder` never throws.
- DebugTool.AfterReconstruction: the `catch` around the text decoding (frontend/src/ShamirDebugTool.js:141-143) is not modelled, for the same reason.
- The split side of the scheme: no code in the repository splits a secret over GF(2^8). `Recovery.ShareFor` is a specification of such shares, not a model of source code.
- The coercions on form values: the `parseInt(s.shareId)` of the selection filter is not modelled; share ids are natural numbers here.
- App.ValidateSplitAsWritten: an edited count field is taken to be a non-empty run of decimal digits. Text such as `1.5`, `-3` or `1e1`, which a number input also accepts, is not represented, and neither is the browser's own `min`/`max` check before the submit handler runs.
- `updateOwnerAddress` and `updateRecipientPublicKey` (frontend/src/App.js:407-418) are plain index stores and are not modelled. Everything in `handleSplitSecret` and `handleReconstructSecret` after the checks (encryption, contract calls, share fetching) is left out as network work.
- DebugPanel.AnalyzeBytes: the two percentages (frontend/src/DebugPanel.js:173-174) are floating point and are not computed.
- DebugPanel.InspectRawData: the `String(rawData)` preview and the JSON parse attempt are only logged, so they are not part of the result. The input is taken to be a `Uint8Array`.
- DebugPanel.RunDataTest: the 100-character previews of the logged strings are left out.
- Visualization.RunSimulation: the timers between the steps and the colour of each share are left out; the text decoding of the reconstructed bytes is modelled.
- DebugTool.FetchShares: the share data is taken as a byte sequence. ethers returns `bytes` as a `0x` hex string, so the 20-element preview at frontend/src/ShamirDebugTool.js:84 is really the first 20 characters of that string; the model shows bytes.
- Visualization.Select: a run of draws is finite, so a selection loop that has not finished is `None`. `SelectionNeverEnds` shows that this happens for every run of draws when there are fewer shares than the threshold.

## Findings

| source | as written | input that shows it | evidently intended | confidence | as-written member | corrected member |
|---|---|---|---|---|---|---|
| frontend/src/ShamirDebugTool.js:254 | the scan runs `i < byteArray.length - markerBytes.length`, so it never tries the last start position | the bytes of `{}`: the closing brace at position 1 is not reported as "JSON Object End" (`ClosingBraceOfPackage`), and neither is the final `}` of any serialized package (`FinalMarkerMissed`) | `i <= byteArray.length - markerBytes.length`, so that every occurrence is reported (the loop is `FindMarker`, the whole search `FindBytePatternsCorrected`) | high (not executed; follows from the loop bound) | DebugTool.FindBytePatterns | DebugTool.FindBytePatternsCorrected |
| frontend/src/App.js:445 | `threshold > parts` compares the stored field values, which are strings once the user has typed into both number inputs (lines 967 and 979), so the comparison is by characters | parts `10` with threshold `3`: `"3" > "10"` holds, and the page says "Threshold must be at least 2 and not greater than parts" (`TenPartsThreeRefused`) | compare the numbers, for instance `parseInt(threshold) > parseInt(parts)` | high (not executed; follows from ECMA-262 section 7.2.13) | App.ValidateSplitAsWritten | App.ValidateSplit |
| frontend/src/ShamirVisualization.js:117-159 | reconstruction works in the integers modulo 256, and the inverse search at lines 142-148 leaves 1 when the denominator is even | the secret byte 0 with threshold 2 and coefficient 1, so shares 1, 2, 3 hold 1, 2, 3; selecting shares 1 and 3 gives the denominator -2 → 254, and the result is 250, so the page reports that reconstruction failed | any `threshold` distinct shares give the secret back, as the page's check at line 583 expects; arithmetic in GF(2^8), as the client uses, does this | high (not executed; follows from the arithmetic) | Visualization.EvenGapMisreconstructs | Visualization.FieldSimulationRecovers |
