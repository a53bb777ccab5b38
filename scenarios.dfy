/**
 * Command sequences a terminal sends, with what the applet answers. Each
 * method drives one `PasswordSafe` through several handlers, and its
 * contract states the outcome of the whole exchange.
 */
module Scenarios {
  import opened Bytes
  import opened Iso7816
  import opened Transport
  import opened FileStore
  import opened Vault
  import opened Protocol

  /** Personalisation with a plain PIN, then a plain verification of that PIN. */
  method PersonaliseThenVerify(safe: PasswordSafe, pin: seq<byte>, randomPuk: seq<byte>)
    returns (personalised: Response, verified: Response)
    requires safe.Valid() && safe.state == STATE_INIT
    requires PIN_MIN_LENGTH <= |pin| <= PIN_MAX_LENGTH && |randomPuk| == PUK_LENGTH
    modifies safe, safe.pin, safe.puk, safe.buf
    ensures safe.Valid() && safe.state == STATE_SECURE_NO_DATA
    ensures personalised == Send(randomPuk)
    ensures verified == Send([safe.masterPW]) && safe.pin.validated
  {
    personalised := safe.CardInit(0x00, 0x01, |pin| as byte, pin, randomPuk);
    verified := safe.CheckPin(0x01, 0x00, |pin| as byte, pin);
  }

  /**
   * Personalisation, then a verification in encrypted mode: the PIN
   * encrypted under the key derived from it at personalisation.
   */
  method PersonaliseThenVerifyEncrypted(safe: PasswordSafe, pin: seq<byte>, randomPuk: seq<byte>)
    returns (verified: Response)
    requires safe.Valid() && safe.state == STATE_INIT && InversePair(safe.crypto)
    requires PIN_MIN_LENGTH <= |pin| <= PIN_MAX_LENGTH && pin[0] != SENTINEL
    requires |randomPuk| == PUK_LENGTH
    modifies safe, safe.pin, safe.puk, safe.buf
    ensures safe.Valid()
    ensures verified == Send([safe.masterPW]) && safe.pin.validated
  {
    var _ := safe.CardInit(0x00, 0x01, |pin| as byte, pin, randomPuk);
    var ct := EncryptSecret(safe.crypto, safe.aesKey, pin);
    EncryptedVerifyMatchesPlain(safe.crypto, safe.aesKey, pin);
    verified := safe.CheckPin(0x01, 0x01, BLOCK_SIZE as byte, ct);
  }

  /**
   * Three wrong PINs in a row block the PIN: the answers count the tries
   * down, and afterwards even the right PIN is refused.
   */
  method WrongPinsBlock(safe: PasswordSafe, wrong: seq<byte>, right: seq<byte>)
    returns (first: Response, second: Response, third: Response, fourth: Response)
    requires safe.Valid() && safe.state != STATE_INIT
    requires safe.pin.triesLeft == PIN_MAX_TRIES
    requires |wrong| <= PIN_MAX_LENGTH && PadWithZeros(wrong, PIN_MAX_LENGTH) != safe.pin.reference
    requires |right| <= PIN_MAX_LENGTH && PadWithZeros(right, PIN_MAX_LENGTH) == safe.pin.reference
    modifies safe.pin, safe.buf
    ensures safe.Valid()
    ensures first == Thrown(TriesSw(2)) && second == Thrown(TriesSw(1)) && third == Thrown(TriesSw(0))
    ensures fourth == Thrown(TriesSw(0))
    ensures safe.pin.triesLeft == 0 && !safe.pin.validated
  {
    first := safe.CheckPin(0x01, 0x00, |wrong| as byte, wrong);
    second := safe.CheckPin(0x01, 0x00, |wrong| as byte, wrong);
    third := safe.CheckPin(0x01, 0x00, |wrong| as byte, wrong);
    fourth := safe.CheckPin(0x01, 0x00, |right| as byte, right);
  }

  /**
   * A blocked PIN unblocked with the PUK and a new PIN in plain mode, then
   * the new PIN verified.
   */
  method UnblockWithPuk(safe: PasswordSafe, newPin: seq<byte>)
    returns (reset: Response, verified: Response)
    requires safe.Valid() && safe.state != STATE_INIT
    requires safe.pin.triesLeft == 0 && safe.puk.triesLeft > 0
    requires PIN_MIN_LENGTH <= |newPin| <= PIN_MAX_LENGTH
    modifies safe.pin, safe.puk, safe.buf
    ensures safe.Valid()
    ensures reset == Send([]) && safe.pin.reference == PadWithZeros(newPin, PIN_MAX_LENGTH)
    ensures verified == Send([safe.masterPW]) && safe.pin.validated
  {
    var data := safe.puk.reference + newPin;
    assert data[..PUK_LENGTH] == safe.puk.reference && data[PUK_LENGTH..] == newPin;
    reset := safe.ResetPin(0x01, 0x02, |data| as byte, data);
    verified := safe.CheckPin(0x01, 0x00, |newPin| as byte, newPin);
  }

  /** A master password stored in plain mode and read back in plain mode. */
  method SetThenGetMasterPassword(safe: PasswordSafe, pw: seq<byte>)
    returns (stored: Response, read: Response)
    requires safe.Valid() && safe.state != STATE_INIT && safe.pin.validated
    requires |pw| < 128
    modifies safe, safe.buf
    ensures safe.Valid() && safe.masterPW == MASTER_PW_STORED_YES
    ensures stored == Send([]) && read == Send(pw)
  {
    stored := safe.SetMasterPw(0x02, 0x01, |pw| as byte, pw);
    read := safe.GetMasterPw(0x02, 0x02, 0, []);
  }

  /**
   * A stored master password read in encrypted mode, and the 48 bytes of
   * the answer sent back unchanged in encrypted mode: the same password is
   * stored again.
   */
  method GetThenSetEncrypted(safe: PasswordSafe)
    returns (read: Response, stored: Response)
    requires safe.Valid() && safe.state != STATE_INIT && safe.pin.validated
    requires safe.masterPW == MASTER_PW_STORED_YES && |safe.files[MasterPw]| < PW_BLOCK_SIZE
    requires InversePair(safe.crypto)
    modifies safe, safe.buf
    ensures safe.Valid()
    ensures read.Send? && stored == Send([])
    ensures safe.files == old(safe.files) && safe.masterPWlength == old(safe.masterPWlength)
  {
    ghost var pw := safe.files[MasterPw];
    read := safe.GetMasterPw(0x01, 0x02, 0, []);
    EncryptedGetThenSet(safe.crypto, safe.aesKey, pw, safe.buf[OFFSET_CDATA + PW_BLOCK_SIZE..]);
    var ct := read.data;
    assert |ct| == PW_BLOCK_SIZE;
    assert DataArea(safe.buf[..], ct) == ct + safe.buf[OFFSET_CDATA + PW_BLOCK_SIZE..];
    stored := safe.SetMasterPw(0x01, 0x01, PW_BLOCK_SIZE as byte, ct);
    assert safe.files == old(safe.files) by {
      DeleteThenReplace(old(safe.files), MasterPw, pw);
      assert old(safe.files)[MasterPw := pw] == old(safe.files);
    }
  }

  /**
   * The data files created, data written into the first one at an offset,
   * and the same range read back.
   */
  method CreateWriteRead(safe: PasswordSafe, size1: nat, size2: nat, name: seq<byte>,
                         offset: nat, content: seq<byte>)
    returns (created: Response, written: Response, read: Response)
    requires safe.Valid() && safe.state == STATE_SECURE_NO_DATA && safe.pin.validated
    requires size1 < 0x8000 && size2 < 0x8000 && 4 + |name| <= 128
    requires offset + |content| <= size1 && 2 + |content| <= 128
    modifies safe, safe.buf
    ensures safe.Valid() && safe.state == STATE_SECURE_DATA
    ensures created == Send([]) && written == Send([]) && read == Send(content)
  {
    var createData := ShortBytes(size1) + ShortBytes(size2) + name;
    ShortRoundTrip(size1);
    ShortRoundTrip(size2);
    assert createData[..2] == ShortBytes(size1) && createData[2..4] == ShortBytes(size2);
    created := safe.CreateFile(0x03, 0x01, |createData| as byte, createData);
    var writeData := ShortBytes(offset) + content;
    ShortRoundTrip(offset);
    assert writeData[2..] == content;
    written := safe.WriteFile(0x03, 0x01, |writeData| as byte, writeData);
    ReadAfterWrite(old(safe.files)[Data1 := Zeros(size1)], Data1, offset, content);
    var readData := ShortBytes(offset) + ShortBytes(|content|);
    ShortRoundTrip(|content|);
    read := safe.ReadFile(0x03, 0x01, 4, readData);
  }
}
