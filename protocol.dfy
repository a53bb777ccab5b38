/**
 * The terminal's side of the transport encoding, and what the applet's
 * decoders make of it. A terminal sends a PIN or PUK encrypted as one
 * AES block. A PIN sits right-aligned behind 0xFF fillers, and the applet's
 * decoding undoes that exactly where the PIN does not start with 0xFF. A
 * PUK is the last 8 bytes of the block, and it is recovered whatever its
 * bytes. The lemmas also relate the encrypted commands to their plain
 * counterparts.
 */
module Protocol {
  import opened Bytes
  import opened Optional
  import opened Iso7816
  import opened Transport
  import opened FileStore
  import opened Vault

  /** A secret of at most 16 bytes as a terminal encrypts it: sentinel-padded to one block. */
  function EncryptSecret(c: Crypto, k: Key, secret: seq<byte>): (ct: seq<byte>)
    requires |secret| <= BLOCK_SIZE
    ensures |ct| == BLOCK_SIZE
  {
    EcbEncrypt(c, k, SentinelPad(secret, BLOCK_SIZE)).value
  }

  /** One encrypted block decodes to the secret it carries. */
  lemma {:induction false} DecodeEncryptedSecret(c: Crypto, k: Key, secret: seq<byte>)
    requires InversePair(c)
    requires 1 <= |secret| <= BLOCK_SIZE && secret[0] != SENTINEL
    ensures EcbDecrypt(c, k, EncryptSecret(c, k, secret)) == Some(SentinelPad(secret, BLOCK_SIZE))
    ensures SentinelPayload(SentinelPad(secret, BLOCK_SIZE)) == Some(secret)
    ensures DecodeHalf(c, k, EncryptSecret(c, k, secret)) == secret
  {
    var block := SentinelPad(secret, BLOCK_SIZE);
    EcbRoundTrip(c, k, block);
    SentinelRoundTrip(secret, BLOCK_SIZE);
    assert EcbDecrypt(c, k, EncryptSecret(c, k, secret)).value[..BLOCK_SIZE] == block;
  }

  /**
   * `checkPIN`: the encrypted form of a PIN yields the same candidate as
   * the PIN sent in plain, the PIN zero-padded to 16 bytes.
   */
  lemma {:induction false} EncryptedVerifyMatchesPlain(c: Crypto, k: Key, pin: seq<byte>)
    requires InversePair(c)
    requires 1 <= |pin| <= PIN_MAX_LENGTH && pin[0] != SENTINEL
    ensures VerifyCandidate(true, EncryptSecret(c, k, pin), c, k) == VerifyCandidate(false, pin, c, k)
    ensures VerifyCandidate(false, pin, c, k) == Some(PadWithZeros(pin, PIN_MAX_LENGTH))
  {
    DecodeEncryptedSecret(c, k, pin);
    var dec := EcbDecrypt(c, k, EncryptSecret(c, k, pin)).value;
    assert dec[..BLOCK_SIZE] == SentinelPad(pin, BLOCK_SIZE);
    assert VerifyPayload(true, EncryptSecret(c, k, pin), c, k) == Some(pin);
  }

  /**
   * `checkPIN` in plain mode: a PIN and the same PIN with trailing zero
   * bytes (up to 16) are the same candidate, because the reference is
   * stored zero-padded.
   */
  lemma TrailingZerosAreIgnored(c: Crypto, k: Key, pin: seq<byte>, zeros: nat)
    requires |pin| + zeros <= PIN_MAX_LENGTH
    ensures VerifyCandidate(false, pin + Zeros(zeros), c, k) == VerifyCandidate(false, pin, c, k)
  {
    assert pin + Zeros(zeros) + Zeros(PIN_MAX_LENGTH - |pin| - zeros)
        == pin + Zeros(PIN_MAX_LENGTH - |pin|);
  }

  /**
   * `changePIN`: two encrypted secrets decode to the two secrets one after
   * the other, as if sent in plain. The command goes on only when that
   * payload has 32 bytes, so only full 16-byte PINs can be changed this
   * way; shorter ones answer a wrong length.
   */
  lemma {:induction false} EncryptedChangeMatchesPlain(c: Crypto, k: Key, oldPin: seq<byte>, newPin: seq<byte>)
    requires InversePair(c)
    requires 1 <= |oldPin| <= BLOCK_SIZE && oldPin[0] != SENTINEL
    requires 1 <= |newPin| <= BLOCK_SIZE && newPin[0] != SENTINEL
    ensures ChangePayload(true, EncryptSecret(c, k, oldPin) + EncryptSecret(c, k, newPin), c, k)
            == ChangePayload(false, oldPin + newPin, c, k)
    ensures ChangePayload(false, oldPin + newPin, c, k) == Some(oldPin + newPin)
    ensures |oldPin + newPin| == 2 * PIN_MAX_LENGTH <==> |oldPin| == |newPin| == PIN_MAX_LENGTH
  {
    var ct1, ct2 := EncryptSecret(c, k, oldPin), EncryptSecret(c, k, newPin);
    var data := ct1 + ct2;
    assert data[..BLOCK_SIZE] == ct1 && data[BLOCK_SIZE..2 * BLOCK_SIZE] == ct2;
    DecodeEncryptedSecret(c, k, oldPin);
    DecodeEncryptedSecret(c, k, newPin);
  }

  /**
   * `resetPIN` and `cardReset`: when the first block of the data area is
   * the encryption of any 8 bytes followed by the PUK, the candidate is
   * that PUK, whatever follows the block.
   */
  lemma EncryptedPukCandidate(c: Crypto, k: Key, filler: seq<byte>, puk: seq<byte>, rest: seq<byte>)
    requires InversePair(c)
    requires |filler| == PUK_LENGTH && |puk| == PUK_LENGTH
    ensures PukCandidate(true, c.encrypt(k, filler + puk) + rest, c, k) == puk
  {
    var block: Block := filler + puk;
    assert (c.encrypt(k, block) + rest)[..BLOCK_SIZE] == c.encrypt(k, block);
    assert c.decrypt(k, c.encrypt(k, block)) == block;
  }

  /**
   * `getMasterPW` then `setMasterPW`, both encrypted: the 48 bytes the read
   * answers, sent back as they are, store the same password again. This
   * holds for every password of at most 47 bytes.
   */
  lemma EncryptedGetThenSet(c: Crypto, k: Key, pw: seq<byte>, rest: seq<byte>)
    requires InversePair(c)
    requires |pw| < PW_BLOCK_SIZE
    ensures GetMasterPwResponse(true, pw, c, k).Send?
    ensures var ct := GetMasterPwResponse(true, pw, c, k).data;
            SetPayload(true, ct, ct + rest, c, k) == Some(pw)
  {
    MasterPasswordTransportRoundTrip(c, k, pw);
    var ct := GetMasterPwResponse(true, pw, c, k).data;
    assert (ct + rest)[..PW_BLOCK_SIZE] == ct;
  }

  /**
   * `createFile` then `getFileSize`: the sizes answered are the size bytes
   * the creation received.
   */
  lemma CreatedSizesReadBack(fs: Files, nameLen: int, area: seq<byte>)
    requires 0 <= nameLen && 4 + nameLen <= |area|
    requires CreateDataFiles(fs, GetShort(area, 0), GetShort(area, 2), nameLen, area).1
    ensures var created := CreateDataFiles(fs, GetShort(area, 0), GetShort(area, 2), nameLen, area).0;
            ShortBytes(|created[Data1]|) + ShortBytes(|created[Data2]|) == area[..4]
  {
    MakeShortRoundTrip(area[0], area[1]);
    MakeShortRoundTrip(area[2], area[3]);
    assert area[..4] == [area[0], area[1]] + [area[2], area[3]];
  }
}
