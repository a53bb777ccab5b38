# passwordSafe: a verified model of the applet's command processing

`passwordSafe` is a Java Card applet that works as a password vault on a smart card. It keeps a master password and two data files, with a name file beside them. A retry-limited PIN protects them (3 tries, 16 bytes). A retry-limited PUK (3 tries, 8 bytes) unblocks the PIN and wipes the card. A terminal talks to the applet in APDUs of class 0x80, and the applet dispatches fourteen instructions:

- personalisation (`cardINIT`);
- PIN verification, PIN change and PIN reset;
- card reset;
- set, get and delete of the master password;
- create, write, read and delete of the data files;
- file sizes and file name.

The secrets and the master password travel either in plain or encrypted. Encryption is AES-256 in ECB mode under a transport key, which is the SHA-256 of the PIN given at personalisation. The applet uses two payload conventions:

- a PIN sits right-aligned behind 0xFF fillers in a 16-byte block, and a PUK is bytes 8..15 of such a block;
- the master password sits behind a length byte in a 48-byte block.

This project models the applet class `src/keepassSafe/passwordSafe.java` in Dafny. The model is imperative where the applet is:

- `Vault.PasswordSafe` is a class with the applet's fields (`state`, `masterPW`, `masterPWlength`, the transport key, the files).
- The APDU buffer is an `array<byte>` shared with the runtime. Handlers copy into it and read back from it as the applet does, including the stale bytes beyond the received data that some handlers read.
- The two `OwnerPIN` objects are instances of `OwnerPins.OwnerPin`.
- The decoding scans are methods with loops, proved against pure functions of the received data.

Each handler returns a `Response`: the data sent with status 0x9000, or the status word that ended it. The applet's throws have two kinds:

- an `ISOException` gives its own status word;
- any other runtime exception gives 0x6F00. Examples are a negative array length, a block-misaligned cipher input and an index out of bounds.

Either way, the effects made before the throw stay.

Modules, one per file:

- `Optional` (optional.dfy) — the option type.
- `Bytes` (bytes.dfy) — bytes, Java's narrowing casts, the `Util` short helpers, and `Util.arrayCopy`/`arrayFillNonAtomic` on arrays.
- `Iso7816` (iso7816.dfy) — status words (ISO/IEC 7816-4, section 5.1.3 of the 2005 edition) and the `Response` type.
- `FileStore` (file_store.dfy) — the storage collaborator as a map from its four file identifiers to byte sequences.
- `Transport` (transport.dfy) — the cipher as an opaque inverse pair, ECB, and the two payload conventions.
- `OwnerPins` (owner_pin.dfy) — the `javacard.framework.OwnerPIN` behaviour the applet relies on.
- `Vault` (vault.dfy) — the applet: its constants, its decoders as functions, and the class with its handlers and `process`.
- `Protocol` (protocol.dfy) — the terminal's side of the encodings, and lemmas relating encrypted commands to plain ones.
- `Scenarios` (scenarios.dfy) — multi-command exchanges and their outcome.

The main properties proved:

- Every handler's contract gives its answer and its new state for every input:
  - the guards in the applet's own order;
  - the P1/P2 guards written with `&&`, which reject only when both bytes differ;
  - the faults;
  - the effects.
- `Process` preserves the applet's invariant (`PasswordSafe.Valid`). It also proves access-control facts across all instructions:
  - the files change only while the PIN is validated;
  - only a verification validates the PIN;
  - the PIN reference changes only by personalisation, change or reset;
  - a blocked PIN is unblocked only by a reset or a personalisation from the initial state;
  - the PUK and the transport key change only at personalisation.
- The decoding round trips hold when the block cipher is an inverse pair:
  - an encrypted PIN decodes to the PIN exactly when its first byte is not 0xFF;
  - an encrypted PUK is recovered as the candidate for every PUK;
  - the password-block encoding and decoding invert each other for passwords of at most 47 bytes, and for 48-byte ones whose first byte is 0x30;
  - the encrypted master-password read and write invert each other for passwords of at most 47 bytes.
- Storage round trips: `getShort`/`setShort`, write then read of a data file, and created sizes then `getFileSize`.

## Behaviour as written

The model follows the code wherever the applet's documented protocol says otherwise:

- **All-0xFF block.** In `checkPIN`, a decrypted PIN block of 0xFF bytes only does not decode to an empty PIN. `lc` and the buffer keep the ciphertext, which is then compared (`Vault.VerifyPayload`). In `changePIN`, an all-0xFF half does decode to an empty payload, as documented (`Vault.TrimmedOrEmpty`).
- **Verification answer.** A successful verification answers the `masterPW` byte, 1 (stored) or 2 (none). It does not answer a presence flag of 0 or 1.
- **No lockout state.** The state never becomes `STATE_PIN_LOCKED`, because the assignments follow a throw. Likewise, the purge in `select` after the lockout throw never runs. `Vault.PasswordSafe.Valid` states the three reachable states.
- **What `cardReset` keeps.** It deletes the files and returns to the initial state. It keeps the PIN, the PUK, the PIN's validation and the transport key.
- **Early purge in `setMasterPW`.** The purge of an existing password comes before the P1/P2 check and before the decoding. A rejected or failing command therefore still loses the password. `setMasterPW` is also allowed in the initial state.
- **Partial effects.** `createFile` can fault part-way, because the collaborator rejects a negative size. The files created before the fault stay.
- **`delMasterPW` without a validated PIN** answers 0x6985, not 0x6982.
- **Encrypted `resetPIN` never sets a PIN.**
  - With Lc = 16, the second half is decrypted as 8 bytes, which is not block aligned: 0x6F00.
  - Otherwise the length is taken to be 8, and a correct PUK answers 0x9090.
  - `Vault.PasswordSafe.ResetPin`, `Vault.ResetPinOutcome`.
- **Encrypted `changePIN` accepts only two full 16-byte PINs.** The two decoded payloads must total 32 bytes (`Protocol.EncryptedChangeMatchesPlain`).
- **Trailing zero bytes of a PIN are ignored.** The reference is the PIN zero-padded to 16 bytes (`Protocol.TrailingZerosAreIgnored`).

## Model

| member | source | states |
|---|---|---|
| Bytes.PadWithZeros | src/keepassSafe/passwordSafe.java:281-282 | the PIN padded to 16 bytes keeps the PIN as its prefix and is zero after it |
| Bytes.PadWithZerosInjective | src/keepassSafe/passwordSafe.java:340-343 | padding loses nothing: two PINs of one length pad equally exactly when they are equal |
| Bytes.AsJavaByte | src/keepassSafe/passwordSafe.java:496-498 | Java's `(byte)` cast: the value in -128..127, identity on that range, minus 256 on 128..255 |
| Bytes.AsJavaShort | src/keepassSafe/passwordSafe.java:737 | Java's `(short)` cast: the value in -32768..32767, identity there, minus 65536 on 32768..65535 |
| Bytes.Signed | src/keepassSafe/passwordSafe.java:597 | a byte widened with sign extension: non-negative exactly below 128 |
| Bytes.MakeShort | src/keepassSafe/passwordSafe.java:736-739 | `Util.makeShort`: a signed short, non-negative exactly when the high byte is below 128 |
| Bytes.ShortRoundTrip | src/keepassSafe/passwordSafe.java:954-955 | `Util.getShort` reads back every short that `Util.setShort` wrote |
| Bytes.MakeShortRoundTrip | src/keepassSafe/passwordSafe.java:736-739 | `Util.setShort` writes back the two bytes `Util.makeShort` read |
| Bytes.GetShort | src/keepassSafe/passwordSafe.java:840-841 | `Util.getShort`: a signed short whose two bytes, written back by `Util.setShort`, are exactly the bytes read |
| Bytes.ShortBytes | src/keepassSafe/passwordSafe.java:954-955 | `Util.setShort`: two bytes, high then low, whose big-endian value is the short modulo 65536 |
| Bytes.ArrayCopy | src/keepassSafe/passwordSafe.java:331 | `Util.arrayCopy`: the destination is the old array with the source written at the offset, the rest unchanged |
| Bytes.ArrayFillZero | src/keepassSafe/passwordSafe.java:281 | `Util.arrayFillNonAtomic` with 0: zeros written at the offset, the rest unchanged |
| Iso7816.TriesSw | src/keepassSafe/passwordSafe.java:344 | `0x63C0 | tries`: the high twelve bits are 0x63C, the low nibble is the count of tries |
| FileStore.Create | src/keepassSafe/passwordSafe.java:744-746 | a file of `size` bytes exists afterwards exactly when `size >= 0`; other files unchanged |
| FileStore.Write | src/keepassSafe/passwordSafe.java:796-800 | succeeds exactly when the file exists and holds the range; keeps the file set and sizes and every other file |
| FileStore.Read | src/keepassSafe/passwordSafe.java:847-851 | succeeds exactly when the file exists and holds a non-negative range; the result has the requested length |
| FileStore.Delete | src/keepassSafe/passwordSafe.java:896-907 | the file is gone and every other file is unchanged |
| FileStore.Size | src/keepassSafe/passwordSafe.java:950-951 | the size of an existing file, nothing for a missing one |
| FileStore.DeleteThenReplace | src/keepassSafe/passwordSafe.java:584-606 | purging the password file and storing a new one is replacing it |
| FileStore.DeleteAll | src/keepassSafe/passwordSafe.java:551-554 | the four deletions of the wipe leave no file |
| FileStore.ReadAfterWrite | src/keepassSafe/passwordSafe.java:796-851 | reading the range just written returns the bytes written |
| FileStore.ReadAfterCreate | src/keepassSafe/passwordSafe.java:744-746 | a freshly created file reads back as zeros |
| Transport.Ecb | src/keepassSafe/passwordSafe.java:1001-1024 | ECB without padding: defined exactly on block-aligned input, length-preserving, the first block through the cipher and the rest by recursion |
| Transport.EcbBlock | src/keepassSafe/passwordSafe.java:1001-1024 | ECB works block by block: output block i is the block cipher applied to input block i, for every block of aligned input |
| Transport.EcbRoundTrip | src/keepassSafe/passwordSafe.java:1001-1024 | `decryptData` undoes `encryptData` for every aligned input when the block cipher is an inverse pair |
| Transport.EcbEncrypt | src/keepassSafe/passwordSafe.java:1001-1011 | `encryptData`: defined exactly on block-aligned input, length-preserving, the first block being the block cipher applied to the first input block |
| Transport.EcbDecrypt | src/keepassSafe/passwordSafe.java:1013-1024 | `decryptData`: defined exactly on block-aligned input, length-preserving, the first block being the inverse cipher applied to the first input block |
| Transport.SentinelPayload | src/keepassSafe/passwordSafe.java:328-334 | the payload is the suffix from the first non-0xFF byte, 1..16 bytes long, preceded only by fillers; none for an all-0xFF block |
| Transport.SentinelRoundTrip | src/keepassSafe/passwordSafe.java:328-334 | the trim recovers a right-aligned payload exactly when its first byte is not 0xFF |
| Transport.SentinelPayloadRebuilds | src/keepassSafe/passwordSafe.java:328-334 | re-padding the trimmed payload gives back the block: the trim drops only fillers |
| Transport.FindPayloadStart | src/keepassSafe/passwordSafe.java:328-334 | the scan loop finds the first non-0xFF index of the first 16 bytes, found exactly when the trim has a payload, which is the suffix from that index |
| Transport.PwBlockEncode | src/keepassSafe/passwordSafe.java:642-649 | the 48-byte block holds the password at offset 48 - L, the length in byte 0 (below 48), and zeros between |
| Transport.PwBlockDecode | src/keepassSafe/passwordSafe.java:596-599 | the decode succeeds exactly when byte 0 read signed is 0..48, and yields the last L bytes |
| Transport.PwBlockRoundTrip | src/keepassSafe/passwordSafe.java:596-599 | decoding inverts the encoding for every password of at most 47 bytes |
| Transport.PwBlockFullLength | src/keepassSafe/passwordSafe.java:644-649 | a 48-byte password survives the encode/decode exactly when its first byte is 0x30, because the copy overwrites the length byte |
| Transport.MasterPasswordTransportRoundTrip | src/keepassSafe/passwordSafe.java:641-653 | the 48 bytes the encrypted read sends, decrypted and decoded as the encrypted write does, are the stored password |
| OwnerPins.OwnerPin.constructor | src/keepassSafe/passwordSafe.java:101-102 | a new PIN object has the given limits, a full counter, no validation |
| OwnerPins.OwnerPin.Update | src/keepassSafe/passwordSafe.java:282 | the new reference, a full counter, the validation cleared |
| OwnerPins.OwnerPin.Check | src/keepassSafe/passwordSafe.java:343 | on a blocked object fails without comparing; otherwise a match validates and refills, a mismatch costs one try; the reference never changes |
| OwnerPins.OwnerPin.CheckedAgainst | src/keepassSafe/passwordSafe.java:343 | the outcome of a check: a blocked object stays blocked even for the right candidate, a failure on an unblocked object costs exactly one try, and a success means the candidate was the reference and the counter is full |
| OwnerPins.OwnerPin.Reset | src/keepassSafe/passwordSafe.java:127-128 | clears the validation; the counter and reference stay |
| OwnerPins.OwnerPin.ResetAndUnblock | src/keepassSafe/passwordSafe.java:283 | clears the validation and refills the counter |
| OwnerPins.OwnerPin.GetTriesRemaining | src/keepassSafe/passwordSafe.java:344 | answers the try counter without changing anything: at most the limit, and the full limit while validated |
| Vault.Instructions | src/keepassSafe/passwordSafe.java:167-231 | the instructions dispatched are exactly 0x20-0x24, 0x30-0x32 and 0x40-0x45 |
| Vault.Rejects | src/keepassSafe/passwordSafe.java:266-268 | the P1/P2 guard written with `&&`: rejects exactly when both bytes differ from the expected ones, so a right P1 or a right P2 alone passes |
| Vault.DataArea | src/keepassSafe/passwordSafe.java:252 | after receiving, the data area holds the data and then the stale bytes of the buffer |
| Vault.TrimmedOrEmpty | src/keepassSafe/passwordSafe.java:394-400 | what a scan copies: a suffix of the block, empty exactly for an all-0xFF block, the whole block exactly when byte 0 is not 0xFF |
| Vault.VerifyPayload | src/keepassSafe/passwordSafe.java:322-334 | plain: the data; encrypted: defined only for aligned non-empty data, and then a payload of at most 16 bytes or the ciphertext itself |
| Vault.VerifyCandidate | src/keepassSafe/passwordSafe.java:322-340 | the candidate has 16 bytes; in plain mode it exists exactly when the PIN has at most 16 bytes; encrypted, only for aligned non-empty data |
| Vault.DecodeHalf | src/keepassSafe/passwordSafe.java:390-408 | one decoded half of the change payload has at most 16 bytes |
| Vault.ChangePayload | src/keepassSafe/passwordSafe.java:383-409 | plain: the data; encrypted: faults exactly when the halves are empty or not block aligned, else at most 32 bytes |
| Vault.PukCandidate | src/keepassSafe/passwordSafe.java:465-470 | the 8-byte PUK candidate: the first 8 data bytes in plain mode, bytes 8..15 of the decrypted first block otherwise |
| Vault.ResetPinOutcome | src/keepassSafe/passwordSafe.java:496-503 | after a correct PUK: 0x9090 exactly for encrypted mode or 8 data bytes; a new PIN exactly for plain mode with 10..24 bytes, that PIN being the bytes after the PUK zero-padded |
| Vault.SetPayload | src/keepassSafe/passwordSafe.java:591-599 | the password stored: the data in plain mode, at most 48 bytes in encrypted mode |
| Vault.GetMasterPwResponse | src/keepassSafe/passwordSafe.java:641-662 | encrypted: 48 bytes exactly for passwords of at most 48 bytes; plain: the password itself exactly when below 128 bytes; otherwise 0x6F00 |
| Vault.CreateDataFiles | src/keepassSafe/passwordSafe.java:744-749 | succeeds exactly when both sizes and Lc - 4 are non-negative, and then holds two zero files of those sizes and the name; the password file is untouched |
| Vault.FilesAfterDelete | src/keepassSafe/passwordSafe.java:894-911 | P2 = 1 removes data file 1 and the name, 2 removes data file 2, 3 removes all three; the password file and the remaining files are kept |
| Vault.PasswordSafe.constructor | src/keepassSafe/passwordSafe.java:98-122 | installation: the initial state, no master password, fresh counters, no files |
| Vault.PasswordSafe.Valid | src/keepassSafe/passwordSafe.java:604-610 | the applet invariant: the master-password flag says "stored" exactly when the password file exists, and the state is never the lockout state |
| Vault.PasswordSafe.Receive | src/keepassSafe/passwordSafe.java:252 | the data copied to offset 5 and the stale bytes after it kept; the 5 header bytes are not written |
| Vault.PasswordSafe.Select | src/keepassSafe/passwordSafe.java:133-162 | refuses with 0x6250 exactly when both counters are 0, otherwise answers the state byte |
| Vault.PasswordSafe.Deselect | src/keepassSafe/passwordSafe.java:126-129 | both validations cleared; counters and references kept |
| Vault.PasswordSafe.PurgeMasterPw | src/keepassSafe/passwordSafe.java:584-588 | the password file deleted, the flag NO and the length 0 |
| Vault.PasswordSafe.StoreMasterPw | src/keepassSafe/passwordSafe.java:604-610 | the password file holds the password, its length is recorded, the flag is YES |
| Vault.PasswordSafe.Wipe | src/keepassSafe/passwordSafe.java:550-559 | no files, the initial state, no master password; the key kept |
| Vault.PasswordSafe.Personalise | src/keepassSafe/passwordSafe.java:275-296 | the key is the hash of the PIN, the PIN reference the PIN zero-padded, the PUK the random bytes sent back; both counters full; state SECURE_NO_DATA |
| Vault.PasswordSafe.CardInit | src/keepassSafe/passwordSafe.java:243-297 | wrong length, then a state other than INIT, then P1/P2, then a PIN outside 2..16 bytes are refused without effect; otherwise personalisation |
| Vault.PasswordSafe.CopyTrimmed | src/keepassSafe/passwordSafe.java:328-334 | the scan-and-copy leaves the trimmed payload at the offset and sets the length to 16 - i, or 0 for an all-0xFF block |
| Vault.PasswordSafe.LoadVerifyPayload | src/keepassSafe/passwordSafe.java:322-334 | the buffer at offset 5 holds `VerifyPayload` of the data, or the command faults exactly when that is undefined |
| Vault.PasswordSafe.LoadVerifyCandidate | src/keepassSafe/passwordSafe.java:322-340 | the buffer at offset 5 holds `VerifyCandidate` of the data, or the command faults exactly when that is undefined |
| Vault.PasswordSafe.CheckPin | src/keepassSafe/passwordSafe.java:301-356 | length, then state INIT, then P1/P2 refused without effect; otherwise the candidate is checked: a match answers the `masterPW` byte, a mismatch `0x63C0` with the tries left; the state never changes |
| Vault.PasswordSafe.CopyDecodedHalf | src/keepassSafe/passwordSafe.java:394-408 | one half decrypted and scanned: its payload copied at the offset, its length returned |
| Vault.PasswordSafe.LoadDecryptedHalves | src/keepassSafe/passwordSafe.java:385-409 | the two decoded halves land one after the other at offset 5 and `lc` becomes L1 + L2 |
| Vault.PasswordSafe.LoadChangePayload | src/keepassSafe/passwordSafe.java:383-409 | the buffer at offset 5 holds `ChangePayload` of the data, or the command faults exactly when that is undefined |
| Vault.PasswordSafe.ReplacePin | src/keepassSafe/passwordSafe.java:420-430 | a matching old PIN installs the new one; a wrong one leaves the reference and costs a try |
| Vault.PasswordSafe.ChangeValidatedPin | src/keepassSafe/passwordSafe.java:382-430 | a fault, a payload other than 32 bytes, a wrong old PIN, or the new reference bytes 16..31 |
| Vault.PasswordSafe.ChangePin | src/keepassSafe/passwordSafe.java:361-431 | no validation, then length, then P1/P2 refused without effect; then the change of `ChangeValidatedPin`; the state never changes |
| Vault.PasswordSafe.LoadPukCandidate | src/keepassSafe/passwordSafe.java:461-470 | the PUK candidate at offset 5, the rest of the data area kept |
| Vault.PasswordSafe.UnblockPin | src/keepassSafe/passwordSafe.java:461-506 | encrypted with Lc = 16 faults; otherwise the PUK is checked, a wrong one answers its tries, a correct one leads to `ResetPinOutcome` |
| Vault.PasswordSafe.ApplyResetOutcome | src/keepassSafe/passwordSafe.java:496-506 | 0x9090, a wrong length, or the new PIN installed with a full counter, as `ResetPinOutcome` decides |
| Vault.PasswordSafe.ResetPin | src/keepassSafe/passwordSafe.java:435-507 | a PIN that is not blocked answers its tries; then length, state INIT and P1/P2 refused without effect; then `UnblockPin`; the state never changes |
| Vault.PasswordSafe.CheckPukAndWipe | src/keepassSafe/passwordSafe.java:531-559 | a wrong PUK changes only the PUK counter; a correct one wipes |
| Vault.PasswordSafe.CardReset | src/keepassSafe/passwordSafe.java:511-560 | no validation, length, P1/P2 refused without effect; then the PUK check and the wipe; the key kept |
| Vault.PasswordSafe.SetMasterPw | src/keepassSafe/passwordSafe.java:564-611 | no validation and length refused without effect; otherwise the old password is purged first, then P1/P2 or a decode fault leaves none, and success stores `SetPayload` with its length |
| Vault.PasswordSafe.GetMasterPw | src/keepassSafe/passwordSafe.java:615-663 | no validation, length, then INIT or no password refused, then P1/P2; otherwise answers `GetMasterPwResponse` of the stored password |
| Vault.PasswordSafe.DelMasterPw | src/keepassSafe/passwordSafe.java:667-701 | no validation (0x6985), length, INIT or no password, P1/P2 refused without effect; otherwise the password deleted, flag NO, length 0 |
| Vault.PasswordSafe.CreateFiles | src/keepassSafe/passwordSafe.java:743-749 | the three creations and the name write, step by step, equal `CreateDataFiles` |
| Vault.PasswordSafe.CreateFile | src/keepassSafe/passwordSafe.java:705-753 | no validation, length, a state other than SECURE_NO_DATA, P1/P2 refused without effect; then the files of `CreateDataFiles` from the two sizes and the name, and state SECURE_DATA on success |
| Vault.PasswordSafe.DataFile | src/keepassSafe/passwordSafe.java:794-803 | P2 = 1 addresses data file 1, P2 = 2 data file 2, never the name or password file |
| Vault.PasswordSafe.WriteFile | src/keepassSafe/passwordSafe.java:757-805 | no validation, length, a state other than SECURE_DATA, P1/P2 refused; fewer than 2 data bytes or a range outside the file faults; otherwise the data after the offset is written there |
| Vault.PasswordSafe.ReadFile | src/keepassSafe/passwordSafe.java:809-859 | no validation, length, a state other than SECURE_DATA, P1/P2 refused; otherwise answers the range read, or faults when the file does not hold it or it exceeds the buffer |
| Vault.PasswordSafe.DeleteFile | src/keepassSafe/passwordSafe.java:863-915 | no validation, length, a state other than SECURE_DATA, P1/P2 refused without effect; otherwise `FilesAfterDelete` and state SECURE_NO_DATA |
| Vault.PasswordSafe.GetFileSize | src/keepassSafe/passwordSafe.java:919-959 | no validation, length, INIT, P1/P2 refused; otherwise the two sizes as big-endian shorts, or a fault when a data file is missing |
| Vault.PasswordSafe.GetFileName | src/keepassSafe/passwordSafe.java:963-999 | no validation, length, a state other than SECURE_DATA, P1/P2 refused; otherwise the whole name file |
| Vault.PasswordSafe.Process | src/keepassSafe/passwordSafe.java:151-238 | wrong class and unknown instruction refused without effect; the invariant kept; files change only under a validated PIN; only verification validates; PIN, PUK and key change only where stated above |
| Protocol.EncryptSecret | src/keepassSafe/passwordSafe.java:322-334 | what a terminal sends for a secret: one 16-byte block |
| Protocol.DecodeEncryptedSecret | src/keepassSafe/passwordSafe.java:328-334 | an encrypted secret whose first byte is not 0xFF decrypts to its padded block and trims back to the secret |
| Protocol.EncryptedVerifyMatchesPlain | src/keepassSafe/passwordSafe.java:322-343 | an encrypted PIN gives the same candidate as the plain PIN, the PIN zero-padded to 16 bytes |
| Protocol.TrailingZerosAreIgnored | src/keepassSafe/passwordSafe.java:339-343 | a PIN with trailing zero bytes is the same candidate as the PIN |
| Protocol.EncryptedChangeMatchesPlain | src/keepassSafe/passwordSafe.java:383-418 | two encrypted secrets decode as the two plain secrets one after the other, 32 bytes exactly for two 16-byte PINs |
| Protocol.EncryptedPukCandidate | src/keepassSafe/passwordSafe.java:465-470 | the encryption of 8 filler bytes and a PUK yields that PUK as candidate, whatever follows it |
| Protocol.EncryptedGetThenSet | src/keepassSafe/passwordSafe.java:591-653 | the 48 bytes an encrypted read answers, sent back to an encrypted write, store the same password |
| Protocol.CreatedSizesReadBack | src/keepassSafe/passwordSafe.java:735-746 | after a successful creation, the file sizes read back as the four size bytes received |
| Scenarios.PersonaliseThenVerify | src/keepassSafe/passwordSafe.java:243-356 | personalisation sends the PUK, and the same PIN then verifies |
| Scenarios.PersonaliseThenVerifyEncrypted | src/keepassSafe/passwordSafe.java:243-356 | after personalisation the PIN encrypted under the key derived from it verifies |
| Scenarios.WrongPinsBlock | src/keepassSafe/passwordSafe.java:343-344 | three wrong PINs answer 0x63C2, 0x63C1, 0x63C0, after which the right PIN is refused too |
| Scenarios.UnblockWithPuk | src/keepassSafe/passwordSafe.java:435-507 | a blocked PIN reset with the PUK and a new PIN; the new PIN then verifies |
| Scenarios.SetThenGetMasterPassword | src/keepassSafe/passwordSafe.java:564-663 | a password stored in plain mode reads back in plain mode |
| Scenarios.GetThenSetEncrypted | src/keepassSafe/passwordSafe.java:591-653 | an encrypted read sent back as an encrypted write leaves the files as they were |
| Scenarios.CreateWriteRead | src/keepassSafe/passwordSafe.java:705-859 | creation, a write at an offset, and a read of that range answers what was written |

## Left out

- AES-256 (FIPS 197) and SHA-256 (FIPS 180-4) are not modelled. They are opaque functions in a `Transport.Crypto` value. The only assumption, made as a hypothesis of the lemmas that need it, is that decryption undoes encryption under one key.
- The random source (`RandomData`) is not modelled: the 8 PUK bytes are a parameter of `CardInit` and `Process`.
- The storage collaborator `fileSystem` is not part of this model. It is a map from the four file identifiers to byte sequences. Its exceptions are assumed to be faults (0x6F00) in these cases: a negative size or length, a read, write or size query of a missing file, a range outside a file. `deleteFile` of a missing file is assumed to change nothing and not throw; the success of `cardReset` and of the purge in `setMasterPW` rests on that. Creating an existing file is assumed to replace it with zeros. Its own allocation and bounds are not modelled.
- APDU plumbing is reduced to (P1, P2, Lc, received data). The cases of `setIncomingAndReceive` receiving less than Lc are exactly the wrong-length answers. `setOutgoingAndSend`'s own limits are not modelled, for instance its 256-byte maximum.
- The SELECT answer (the state byte sent by `process` while selecting) is part of `Vault.PasswordSafe.Select`, not of `Vault.PasswordSafe.Process`.
- `JCSystem.requestObjectDeletion`, transient and temporary arrays (`temp_data`, the cipher's scratch arrays), `register` and `install` are not modelled. Nor are the card runtime's transactions and tearing: each handler's effects land as its steps run.
- OwnerPIN's constant-time comparison is not modelled, because timing cannot be expressed in the model.
- Vault.PasswordSafe.CheckPin, ChangePin, ResetPin, CardReset, SetMasterPw, GetMasterPw, DelMasterPw, CreateFile, WriteFile, ReadFile, DeleteFile, GetFileSize, GetFileName: their contracts leave unspecified the APDU buffer's contents after the command, beyond the response. The buffer is the runtime's scratch space between commands.
- Vault.PasswordSafe.ChangePin: the encrypted decoding checks that the halves are aligned before decrypting either half. In the applet, an empty pair of halves is decrypted first and then faults on the index. Both orders end in the same fault with no effect, so the model merges them.
