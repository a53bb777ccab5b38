/**
 * The password-safe applet: a vault that keeps a master password and two
 * data files behind a retry-limited PIN, with a PUK to unblock the PIN and
 * to wipe the card.
 *
 * Each command handler receives its APDU already split into P1, P2, the
 * Lc byte and the command data actually received. The APDU buffer is an
 * array the handlers share with the runtime: `setIncomingAndReceive` writes
 * the data from offset 5 on, and bytes beyond the received data keep
 * whatever an earlier command left there. Several handlers read that far,
 * and the model does too.
 *
 * A handler ends either by sending response data (status 0x9000) or by
 * throwing: an `ISOException` gives its reason as the status word, and any
 * other runtime exception gives 0x6F00. In both cases the effects made
 * before the throw stay in place.
 */
module Vault {
  import opened Bytes
  import opened Optional
  import opened Iso7816
  import opened Transport
  import opened FileStore
  import opened OwnerPins

  const CLA_NUMBER: byte := 0x80

  const INS_INIT: byte := 0x20
  const INS_PIN_VERIFY: byte := 0x21
  const INS_CHANGE_PIN: byte := 0x22
  const INS_PIN_RESET: byte := 0x23
  const INS_CARD_RESET: byte := 0x24
  const INS_PW_SET: byte := 0x30
  const INS_PW_GET: byte := 0x31
  const INS_PW_DEL: byte := 0x32
  const INS_CREATE_FILE: byte := 0x40
  const INS_UPDATE_BINARY: byte := 0x41
  const INS_READ_BINARY: byte := 0x42
  const INS_DELETE_FILE: byte := 0x43
  const INS_FILE_SIZE: byte := 0x44
  const INS_GET_FILE_NAME: byte := 0x45

  const PIN_MAX_TRIES: nat := 3
  const PIN_MIN_LENGTH: nat := 2
  const PIN_MAX_LENGTH: nat := 16
  const PUK_MAX_TRIES: nat := 3
  const PUK_LENGTH: nat := 8

  const STATE_INIT: byte := 0x00
  const STATE_SECURE_NO_DATA: byte := 0x01
  const STATE_SECURE_DATA: byte := 0x02
  const STATE_PIN_LOCKED: byte := 0x03

  const MASTER_PW_STORED_YES: byte := 0x01
  const MASTER_PW_STORED_NO: byte := 0x02

  /** Where the command data starts in the APDU buffer. */
  const OFFSET_CDATA: nat := 5
  /** The smallest APDU buffer the Java Card platform provides: a 5-byte header and 128 data bytes. */
  const MIN_APDU_BUFFER: nat := 133

  /** The instructions `process` dispatches. */
  function Instructions(): (s: set<byte>)
    ensures forall ins: byte :: ins in s <==>
              0x20 <= ins <= 0x24 || 0x30 <= ins <= 0x32 || 0x40 <= ins <= 0x45
  {
    {INS_INIT, INS_PIN_VERIFY, INS_CHANGE_PIN, INS_PIN_RESET, INS_CARD_RESET,
     INS_PW_SET, INS_PW_GET, INS_PW_DEL,
     INS_CREATE_FILE, INS_UPDATE_BINARY, INS_READ_BINARY, INS_DELETE_FILE, INS_FILE_SIZE, INS_GET_FILE_NAME}
  }

  /**
   * The applet's P1/P2 guards are written `p1 != e1 && p2 != e2`, so they
   * reject a command only when BOTH bytes differ from the expected ones.
   */
  predicate Rejects(p1: byte, p2: byte, e1: byte, e2: byte)
    ensures p1 == e1 ==> !Rejects(p1, p2, e1, e2)
    ensures p2 == e2 ==> !Rejects(p1, p2, e1, e2)
    ensures p1 != e1 && p2 != e2 ==> Rejects(p1, p2, e1, e2)
  {
    p1 != e1 && p2 != e2
  }

  /**
   * The command-data area of the APDU buffer once `data` has been received
   * into a buffer that held `before`: the data, then stale bytes.
   */
  function DataArea(before: seq<byte>, data: seq<byte>): (area: seq<byte>)
    requires OFFSET_CDATA + |data| <= |before|
    ensures |area| == |before| - OFFSET_CDATA
    ensures area[..|data|] == data
    ensures area[|data|..] == before[OFFSET_CDATA + |data|..]
  {
    data + before[OFFSET_CDATA + |data|..]
  }

  // ---------------------------------------------------------------------
  // Decoding the command data

  /**
   * What the applet copies back after the sentinel scan of a decrypted
   * block: the payload, or nothing when the block is all 0xFF.
   */
  function TrimmedOrEmpty(block: seq<byte>): (p: seq<byte>)
    requires |block| == BLOCK_SIZE
    ensures |p| <= BLOCK_SIZE && p == block[BLOCK_SIZE - |p|..]
    ensures |p| == 0 <==> forall i | 0 <= i < BLOCK_SIZE :: block[i] == SENTINEL
    ensures |p| == BLOCK_SIZE <==> block[0] != SENTINEL
  {
    match SentinelPayload(block)
    case Some(q) => q
    case None => []
  }

  /**
   * The bytes `checkPIN` leaves at offset 5 before its zero fill, or None
   * when it faults first. Plain mode leaves the data. Encrypted mode
   * decrypts it, and a non-aligned or empty input faults; the payload found
   * in the first decrypted block replaces the data, and when that block is
   * all 0xFF the received ciphertext stays.
   */
  function VerifyPayload(encrypted: bool, data: seq<byte>, c: Crypto, k: Key): (r: Option<seq<byte>>)
    ensures !encrypted ==> r == Some(data)
    ensures encrypted && r.Some? ==> |data| % BLOCK_SIZE == 0 && |data| > 0
    ensures encrypted && r.Some? ==> |r.value| <= BLOCK_SIZE || r.value == data
  {
    if !encrypted then Some(data)
    else
      match EcbDecrypt(c, k, data)
      case None => None
      case Some(dec) =>
        if |dec| == 0 then None
        else match SentinelPayload(dec[..BLOCK_SIZE])
          case Some(p) => Some(p)
          case None => Some(data)
  }

  /**
   * The 16 bytes `checkPIN` hands to the PIN check, or None when it faults
   * first: the payload of `VerifyPayload` zero-padded, where more than 16
   * bytes fault (a fill with a negative length). In particular an all-0xFF
   * first block compares the received ciphertext itself when it is exactly
   * one block, and faults when it is longer.
   */
  function VerifyCandidate(encrypted: bool, data: seq<byte>, c: Crypto, k: Key): (r: Option<seq<byte>>)
    ensures r.Some? ==> |r.value| == PIN_MAX_LENGTH
    ensures !encrypted ==> (r.Some? <==> |data| <= PIN_MAX_LENGTH)
    ensures encrypted && r.Some? ==> |data| % BLOCK_SIZE == 0 && |data| > 0
  {
    match VerifyPayload(encrypted, data, c, k)
    case None => None
    case Some(p) => if |p| <= PIN_MAX_LENGTH then Some(PadWithZeros(p, PIN_MAX_LENGTH)) else None
  }

  /**
   * One half of the encrypted `changePIN` payload: the half decrypted, and
   * the sentinel-trimmed payload of its first block.
   */
  function DecodeHalf(c: Crypto, k: Key, half: seq<byte>): (p: seq<byte>)
    requires |half| % BLOCK_SIZE == 0 && |half| > 0
    ensures |p| <= BLOCK_SIZE
  {
    TrimmedOrEmpty(EcbDecrypt(c, k, half).value[..BLOCK_SIZE])
  }

  /**
   * The old-PIN-then-new-PIN payload of `changePIN`, or None when it faults.
   * Plain mode takes the data as it is. Encrypted mode splits it in two
   * halves of Lc/2 bytes and decodes each (see `DecodeHalf`); halves that
   * are empty or not block aligned fault.
   */
  function ChangePayload(encrypted: bool, data: seq<byte>, c: Crypto, k: Key): (r: Option<seq<byte>>)
    ensures !encrypted ==> r == Some(data)
    ensures encrypted ==> (r.None? <==> |data| / 2 % BLOCK_SIZE != 0 || |data| / 2 == 0)
    ensures encrypted && r.Some? ==> |r.value| <= 2 * BLOCK_SIZE
  {
    if !encrypted then Some(data)
    else
      var half := |data| / 2;
      if half % BLOCK_SIZE != 0 || half == 0 then None
      else Some(DecodeHalf(c, k, data[..half]) + DecodeHalf(c, k, data[half..2 * half]))
  }

  /**
   * The PUK candidate of `resetPIN` and `cardReset`: the first 8 data bytes,
   * or, encrypted, the last 8 bytes of the decrypted first block. Both read
   * the buffer whatever the length received.
   */
  function PukCandidate(encrypted: bool, area: seq<byte>, c: Crypto, k: Key): (cand: seq<byte>)
    requires |area| >= BLOCK_SIZE
    ensures |cand| == PUK_LENGTH
    ensures !encrypted ==> cand == area[..PUK_LENGTH]
  {
    if encrypted then c.decrypt(k, area[..BLOCK_SIZE])[PUK_LENGTH..BLOCK_SIZE]
    else area[..PUK_LENGTH]
  }

  /** What `resetPIN` does once the PUK has been accepted. */
  datatype ResetOutcome = PukOnly | BadLength | NewPin(pin: seq<byte>)

  /**
   * The decision `resetPIN` takes after a correct PUK, on the byte casts of
   * the source: `(byte) lc == 8` answers 0x9090 and keeps the PIN, a new-PIN
   * part outside 2..16 bytes is a wrong length, and otherwise the new PIN is
   * the data after the PUK, zero-padded. In encrypted mode the length is
   * always taken to be 8.
   */
  function ResetPinOutcome(encrypted: bool, data: seq<byte>): (o: ResetOutcome)
    requires |data| < 256
    ensures o.PukOnly? <==> encrypted || |data| == PUK_LENGTH
    ensures o.NewPin? <==> !encrypted && PUK_LENGTH + PIN_MIN_LENGTH <= |data| <= PUK_LENGTH + PIN_MAX_LENGTH
    ensures o.NewPin? ==> |data| >= PUK_LENGTH && o.pin == PadWithZeros(data[PUK_LENGTH..], PIN_MAX_LENGTH)
  {
    var n := if encrypted then PUK_LENGTH else |data|;
    if AsJavaByte(n) == PUK_LENGTH as int then PukOnly
    else if AsJavaByte(n - PUK_LENGTH) < PIN_MIN_LENGTH as int
         || AsJavaByte(n - PUK_LENGTH) > PIN_MAX_LENGTH as int then BadLength
    else NewPin(PadWithZeros(data[PUK_LENGTH..n], PIN_MAX_LENGTH))
  }

  /**
   * The master password `setMasterPW` stores, or None when it faults: the
   * data as received, or the length-prefixed payload of the decrypted first
   * 48 bytes of the buffer.
   */
  function SetPayload(encrypted: bool, data: seq<byte>, area: seq<byte>, c: Crypto, k: Key): (r: Option<seq<byte>>)
    requires |area| >= PW_BLOCK_SIZE
    ensures !encrypted ==> r == Some(data)
    ensures encrypted && r.Some? ==> |r.value| <= PW_BLOCK_SIZE
  {
    if !encrypted then Some(data)
    else PwBlockDecode(EcbDecrypt(c, k, area[..PW_BLOCK_SIZE]).value)
  }

  /**
   * The answer of `getMasterPW` for a stored password `pw`. Encrypted, it is
   * the encrypted length-prefixed block, which exists only up to 48 bytes:
   * past that the copy offset is negative, and past 127 the length byte
   * reads negative. Plain, the length byte must read non-negative.
   */
  function GetMasterPwResponse(encrypted: bool, pw: seq<byte>, c: Crypto, k: Key): (r: Response)
    ensures encrypted ==> (r.Send? <==> |pw| <= PW_BLOCK_SIZE)
    ensures encrypted && r.Send? ==> |r.data| == PW_BLOCK_SIZE
    ensures !encrypted ==> (r.Send? <==> |pw| < 128)
    ensures !encrypted && r.Send? ==> r.data == pw
    ensures r.Thrown? ==> r.sw == SW_UNKNOWN
  {
    if encrypted then
      if |pw| <= PW_BLOCK_SIZE then Send(EcbEncrypt(c, k, PwBlockEncode(pw)).value)
      else Thrown(SW_UNKNOWN)
    else if |pw| < 128 then Send(pw)
    else Thrown(SW_UNKNOWN)
  }

  /**
   * The creations of `createFile`, in order, stopping at the first that
   * faults: data file 1 and 2 of the two requested sizes, then the name
   * file of Lc - 4 bytes, holding the data after the two sizes. The result
   * pairs the files left behind with whether all steps succeeded.
   */
  function CreateDataFiles(fs: Files, size1: int, size2: int, nameLen: int, area: seq<byte>): (r: (Files, bool))
    requires 4 + nameLen <= |area|
    ensures r.1 <==> size1 >= 0 && size2 >= 0 && nameLen >= 0
    ensures r.1 ==> Data1 in r.0 && Data2 in r.0 && FileName in r.0
    ensures r.1 ==> r.0[Data1] == Zeros(size1) && r.0[Data2] == Zeros(size2)
                    && r.0[FileName] == area[4..4 + nameLen]
    ensures MasterPw in r.0 <==> MasterPw in fs
    ensures MasterPw in fs ==> r.0[MasterPw] == fs[MasterPw]
  {
    match Create(fs, Data1, size1)
    case None => (fs, false)
    case Some(f1) =>
      match Create(f1, Data2, size2)
      case None => (f1, false)
      case Some(f2) =>
        match Create(f2, FileName, nameLen)
        case None => (f2, false)
        case Some(f3) =>
          var name := area[4..4 + nameLen];
          var f4 := Write(f3, FileName, 0, name).value;
          assert f4[FileName] == Splice(Zeros(nameLen), 0, name) == name;
          (f4, true)
  }

  /** The files `deleteFile` removes for P2 = 1, 2 or 3. */
  function FilesAfterDelete(fs: Files, p2: byte): (r: Files)
    requires 1 <= p2 <= 3
    ensures Data1 in r <==> Data1 in fs && p2 == 2
    ensures Data2 in r <==> Data2 in fs && p2 == 1
    ensures FileName in r <==> FileName in fs && p2 == 2
    ensures MasterPw in r <==> MasterPw in fs
    ensures forall id | id in r :: id in fs && r[id] == fs[id]
  {
    if p2 == 1 then Delete(Delete(fs, Data1), FileName)
    else if p2 == 2 then Delete(fs, Data2)
    else Delete(Delete(Delete(fs, Data1), Data2), FileName)
  }

  // ---------------------------------------------------------------------
  // The applet

  class PasswordSafe {
    /** The card's SHA-256 and AES services. */
    const crypto: Crypto
    /** The APDU buffer. */
    const buf: array<byte>
    const pin: OwnerPin
    const puk: OwnerPin

    var state: byte
    var masterPW: byte
    /** The stored password's length as the byte `(byte)(lc & 0xff)`. */
    var masterPWlength: byte
    /** The SHA-256 of the PIN given at personalisation: the transport key. */
    var aesKey: Key
    /** What the storage collaborator holds. */
    var files: Files

    /**
     * The applet's invariant. The state is one of the three the handlers
     * assign (PIN_LOCKED is declared but never assigned). The master
     * password flag agrees with the presence of its file, whose length
     * the length byte records. The data state guarantees the three data
     * files.
     */
    ghost predicate Valid()
      reads this, pin, puk
      ensures Valid() ==> state != STATE_PIN_LOCKED
      ensures Valid() ==> (MasterPw in files <==> masterPW != MASTER_PW_STORED_NO)
    {
      && pin != puk
      && pin.Valid() && puk.Valid()
      && pin.tryLimit == PIN_MAX_TRIES && pin.maxPinSize == PIN_MAX_LENGTH
      && |pin.reference| == PIN_MAX_LENGTH
      && puk.tryLimit == PUK_MAX_TRIES && puk.maxPinSize == PUK_LENGTH
      && |puk.reference| == PUK_LENGTH
      && buf.Length >= MIN_APDU_BUFFER
      && (state == STATE_INIT || state == STATE_SECURE_NO_DATA || state == STATE_SECURE_DATA)
      && (masterPW == MASTER_PW_STORED_YES || masterPW == MASTER_PW_STORED_NO)
      && (masterPW == MASTER_PW_STORED_YES <==> MasterPw in files)
      && (masterPW == MASTER_PW_STORED_NO ==> masterPWlength == 0)
      && (MasterPw in files ==> |files[MasterPw]| < 256 && masterPWlength as int == |files[MasterPw]|)
      && (state == STATE_SECURE_DATA ==> Data1 in files && Data2 in files && FileName in files)
    }

    /** The received data fits the buffer after the header. */
    predicate Receivable(data: seq<byte>) {
      OFFSET_CDATA + |data| <= buf.Length
    }

    /**
     * Installation: fresh PIN and PUK objects, the initial state, no master
     * password, an all-zero key and no files.
     */
    constructor (crypto: Crypto, apduBuffer: array<byte>)
      requires apduBuffer.Length >= MIN_APDU_BUFFER
      ensures Valid() && fresh(pin) && fresh(puk)
      ensures this.crypto == crypto && buf == apduBuffer
      ensures state == STATE_INIT && masterPW == MASTER_PW_STORED_NO && masterPWlength == 0
      ensures aesKey == Zeros(KEY_SIZE) && files == map[]
      ensures pin.triesLeft == PIN_MAX_TRIES && !pin.validated
      ensures puk.triesLeft == PUK_MAX_TRIES && !puk.validated
    {
      this.crypto := crypto;
      buf := apduBuffer;
      pin := new OwnerPin(PIN_MAX_TRIES, PIN_MAX_LENGTH);
      puk := new OwnerPin(PUK_MAX_TRIES, PUK_LENGTH);
      state := STATE_INIT;
      masterPW := MASTER_PW_STORED_NO;
      masterPWlength := 0;
      aesKey := Zeros(KEY_SIZE);
      files := map[];
    }

    /** `setIncomingAndReceive`: the data lands at offset 5; the header bytes are not written. */
    method Receive(data: seq<byte>)
      requires Receivable(data)
      modifies buf
      ensures buf[..OFFSET_CDATA] == old(buf[..OFFSET_CDATA])
      ensures buf[OFFSET_CDATA..] == DataArea(old(buf[..]), data)
      ensures buf[OFFSET_CDATA..OFFSET_CDATA + |data|] == data
    {
      ArrayCopy(buf, OFFSET_CDATA, data);
      assert buf[OFFSET_CDATA..] == DataArea(old(buf[..]), data) by {
        var area := DataArea(old(buf[..]), data);
        forall i | 0 <= i < |area| ensures buf[OFFSET_CDATA..][i] == area[i] {
          if i < |data| {
            assert buf[OFFSET_CDATA..OFFSET_CDATA + |data|][i] == data[i];
            assert area[..|data|][i] == data[i];
          } else {
            assert area[|data|..][i - |data|] == old(buf[..])[OFFSET_CDATA + i];
          }
        }
      }
    }

    /**
     * `select`: a card whose PIN and PUK are both blocked refuses selection
     * with 0x6250. The file wipe written after the throw never runs.
     * Otherwise selection answers the state byte.
     */
    method Select() returns (r: Response)
      requires Valid()
      modifies buf
      ensures Valid()
      ensures pin.triesLeft == 0 && puk.triesLeft == 0 ==> r == Thrown(SW_CARD_LOCKED)
      ensures !(pin.triesLeft == 0 && puk.triesLeft == 0) ==> r == Send([state])
    {
      if pin.GetTriesRemaining() == 0 && puk.GetTriesRemaining() == 0 {
        return Thrown(SW_CARD_LOCKED);
      }
      buf[0] := state;
      r := Send(buf[..1]);
    }

    /** `deselect`: both validations end with the session; no counter changes. */
    method Deselect()
      requires Valid()
      modifies pin, puk
      ensures Valid()
      ensures !pin.validated && !puk.validated
      ensures pin.triesLeft == old(pin.triesLeft) && puk.triesLeft == old(puk.triesLeft)
      ensures pin.reference == old(pin.reference) && puk.reference == old(puk.reference)
    {
      pin.Reset();
      puk.Reset();
    }

    /** The master-password purge of `setMasterPW` and `delMasterPW`. */
    method PurgeMasterPw()
      requires Valid()
      modifies this
      ensures Valid()
      ensures files == Delete(old(files), MasterPw)
      ensures masterPW == MASTER_PW_STORED_NO && masterPWlength == 0
      ensures state == old(state) && aesKey == old(aesKey)
    {
      files := Delete(files, MasterPw);
      masterPW := MASTER_PW_STORED_NO;
      masterPWlength := 0;
    }

    /**
     * The store of `setMasterPW`: a file of the password's length, the
     * password written into it, its length byte and the flag.
     */
    method StoreMasterPw(pw: seq<byte>)
      requires Valid() && MasterPw !in files && |pw| < 256
      modifies this
      ensures Valid()
      ensures files == old(files)[MasterPw := pw]
      ensures masterPW == MASTER_PW_STORED_YES && masterPWlength as int == |pw|
      ensures state == old(state) && aesKey == old(aesKey)
    {
      var created := Create(files, MasterPw, |pw|).value;
      var written := Write(created, MasterPw, 0, pw).value;
      assert written[MasterPw] == Splice(Zeros(|pw|), 0, pw) == pw;
      assert written == files[MasterPw := pw];
      files := written;
      masterPWlength := (|pw| % 256) as byte;
      masterPW := MASTER_PW_STORED_YES;
    }

    /** The wipe of `cardReset`: every file deleted, back to the initial state. */
    method Wipe()
      requires Valid()
      modifies this
      ensures Valid()
      ensures files == map[] && state == STATE_INIT
      ensures masterPW == MASTER_PW_STORED_NO && masterPWlength == 0
      ensures aesKey == old(aesKey)
    {
      DeleteAll(files);
      files := Delete(Delete(Delete(Delete(files, Data1), Data2), FileName), MasterPw);
      state := STATE_INIT;
      masterPW := MASTER_PW_STORED_NO;
      masterPWlength := 0;
    }

    /**
     * The effects of `cardINIT` once its guards pass: the key derivation,
     * the padded PIN, the PUK drawn from the random source, and the new
     * state.
     */
    method Personalise(data: seq<byte>, randomPuk: seq<byte>) returns (r: Response)
      requires Valid() && |randomPuk| == PUK_LENGTH
      requires PIN_MIN_LENGTH <= |data| <= PIN_MAX_LENGTH
      requires buf[OFFSET_CDATA..OFFSET_CDATA + |data|] == data
      modifies this, pin, puk, buf
      ensures Valid()
      ensures files == old(files) && masterPW == old(masterPW) && masterPWlength == old(masterPWlength)
      ensures r == Send(randomPuk)
      ensures state == STATE_SECURE_NO_DATA && aesKey == crypto.sha256(data)
      ensures pin.reference == PadWithZeros(data, PIN_MAX_LENGTH)
      ensures pin.triesLeft == PIN_MAX_TRIES && !pin.validated
      ensures puk.reference == randomPuk && puk.triesLeft == PUK_MAX_TRIES && !puk.validated
    {
      var n := |data|;
      aesKey := crypto.sha256(buf[OFFSET_CDATA..OFFSET_CDATA + n]);
      ghost var before := buf[..];
      ArrayFillZero(buf, OFFSET_CDATA + n, PIN_MAX_LENGTH - n);
      SpliceExtends(before, OFFSET_CDATA, n, Zeros(PIN_MAX_LENGTH - n));
      pin.Update(buf[OFFSET_CDATA..OFFSET_CDATA + PIN_MAX_LENGTH]);
      pin.ResetAndUnblock();
      // the 8 random PUK bytes land at offset 0
      ArrayCopy(buf, 0, randomPuk);
      puk.Update(buf[..PUK_LENGTH]);
      puk.ResetAndUnblock();
      state := STATE_SECURE_NO_DATA;
      r := Send(buf[..PUK_LENGTH]);
    }

    /**
     * `cardINIT` (INS 0x20): personalisation. From the initial state, a PIN
     * of 2..16 bytes becomes the zero-padded reference, its SHA-256 the
     * transport key, and a fresh random PUK is set and sent back. Both
     * counters are refilled.
     */
    method CardInit(p1: byte, p2: byte, lc: byte, data: seq<byte>, randomPuk: seq<byte>) returns (r: Response)
      requires Valid() && Receivable(data) && |randomPuk| == PUK_LENGTH
      modifies this, pin, puk, buf
      ensures Valid()
      ensures files == old(files) && masterPW == old(masterPW) && masterPWlength == old(masterPWlength)
      ensures |data| != lc as int ==> r == Thrown(SW_WRONG_LENGTH) && unchanged(this, pin, puk)
      ensures |data| == lc as int && old(state) != STATE_INIT ==>
                r == Thrown(SW_COMMAND_NOT_ALLOWED) && unchanged(this, pin, puk)
      ensures |data| == lc as int && old(state) == STATE_INIT && Rejects(p1, p2, 0x00, 0x01) ==>
                r == Thrown(SW_INCORRECT_P1P2) && unchanged(this, pin, puk)
      ensures |data| == lc as int && old(state) == STATE_INIT && !Rejects(p1, p2, 0x00, 0x01)
              && !(PIN_MIN_LENGTH <= |data| <= PIN_MAX_LENGTH) ==>
                r == Thrown(SW_WRONG_LENGTH) && unchanged(this, pin, puk)
      ensures |data| == lc as int && old(state) == STATE_INIT && !Rejects(p1, p2, 0x00, 0x01)
              && PIN_MIN_LENGTH <= |data| <= PIN_MAX_LENGTH ==>
                && r == Send(randomPuk)
                && state == STATE_SECURE_NO_DATA
                && aesKey == crypto.sha256(data)
                && pin.reference == PadWithZeros(data, PIN_MAX_LENGTH)
                && pin.triesLeft == PIN_MAX_TRIES && !pin.validated
                && puk.reference == randomPuk
                && puk.triesLeft == PUK_MAX_TRIES && !puk.validated
    {
      Receive(data);
      if |data| != lc as int {
        return Thrown(SW_WRONG_LENGTH);
      }
      var n := |data|;
      if state != STATE_INIT {
        return Thrown(SW_COMMAND_NOT_ALLOWED);
      }
      if Rejects(p1, p2, 0x00, 0x01) {
        return Thrown(SW_INCORRECT_P1P2);
      }
      if n > PIN_MAX_LENGTH || n < PIN_MIN_LENGTH {
        return Thrown(SW_WRONG_LENGTH);
      }
      r := Personalise(data, randomPuk);
    }

    /**
     * One sentinel scan of the applet over a decrypted block, with its copy:
     * the payload of the first 16 bytes lands at `at`, and `len` is what the
     * applet computes as 16 - i (0 when every byte is a filler).
     */
    method CopyTrimmed(dec: seq<byte>, at: nat) returns (found: bool, len: nat)
      requires |dec| >= BLOCK_SIZE && at + BLOCK_SIZE <= buf.Length
      modifies buf
      ensures len == |TrimmedOrEmpty(dec[..BLOCK_SIZE])| && (found <==> len > 0)
      ensures buf[..] == Splice(old(buf[..]), at, TrimmedOrEmpty(dec[..BLOCK_SIZE]))
    {
      var i;
      found, i := FindPayloadStart(dec);
      if found {
        len := BLOCK_SIZE - i;
        ArrayCopy(buf, at, dec[i..BLOCK_SIZE]);
      } else {
        len := 0;
        assert Splice(buf[..], at, []) == buf[..];
      }
    }

    /**
     * The decryption and sentinel scan of `checkPIN`, after the guards:
     * leaves the payload of `VerifyPayload` at offset 5.
     */
    method LoadVerifyPayload(encrypted: bool, data: seq<byte>) returns (payload: Option<seq<byte>>)
      requires buf.Length >= MIN_APDU_BUFFER && Receivable(data)
      requires buf[OFFSET_CDATA..OFFSET_CDATA + |data|] == data
      modifies buf
      ensures payload == VerifyPayload(encrypted, data, crypto, aesKey)
      ensures payload.Some? ==> buf[OFFSET_CDATA..OFFSET_CDATA + |payload.value|] == payload.value
    {
      if !encrypted {
        return Some(data);
      }
      var dec := EcbDecrypt(crypto, aesKey, buf[OFFSET_CDATA..OFFSET_CDATA + |data|]);
      if dec.None? {
        // CryptoException: the input is not block aligned
        return None;
      }
      if |dec.value| == 0 {
        // decrypted[0] is out of bounds
        return None;
      }
      var found, len := CopyTrimmed(dec.value, OFFSET_CDATA);
      if found {
        assert SentinelPayload(dec.value[..BLOCK_SIZE]) == Some(TrimmedOrEmpty(dec.value[..BLOCK_SIZE]));
        payload := Some(buf[OFFSET_CDATA..OFFSET_CDATA + len]);
      } else {
        assert SentinelPayload(dec.value[..BLOCK_SIZE]).None?;
        assert Splice(old(buf[..]), OFFSET_CDATA, []) == old(buf[..]);
        payload := Some(buf[OFFSET_CDATA..OFFSET_CDATA + |data|]);
      }
    }

    /**
     * The decoding half of `checkPIN`, after the guards: the payload, then
     * the zero fill, leaving the candidate at offset 5 of the buffer.
     */
    method LoadVerifyCandidate(encrypted: bool, data: seq<byte>) returns (cand: Option<seq<byte>>)
      requires buf.Length >= MIN_APDU_BUFFER && Receivable(data)
      requires buf[OFFSET_CDATA..OFFSET_CDATA + |data|] == data
      modifies buf
      ensures cand == VerifyCandidate(encrypted, data, crypto, aesKey)
      ensures cand.Some? ==> buf[OFFSET_CDATA..OFFSET_CDATA + PIN_MAX_LENGTH] == cand.value
    {
      var payload := LoadVerifyPayload(encrypted, data);
      if payload.None? {
        return None;
      }
      var n := |payload.value|;
      if n > PIN_MAX_LENGTH {
        // arrayFillNonAtomic with a negative length
        return None;
      }
      ghost var before := buf[..];
      ArrayFillZero(buf, OFFSET_CDATA + n, PIN_MAX_LENGTH - n);
      SpliceExtends(before, OFFSET_CDATA, n, Zeros(PIN_MAX_LENGTH - n));
      cand := Some(buf[OFFSET_CDATA..OFFSET_CDATA + PIN_MAX_LENGTH]);
      assert cand.value == PadWithZeros(payload.value, PIN_MAX_LENGTH);
    }

    /**
     * `checkPIN` (INS 0x21): outside the initial state, the candidate of
     * `VerifyCandidate` goes to the PIN check. A match answers the master
     * password flag; a mismatch answers the tries left. The state never
     * changes (the assignment of PIN_LOCKED follows the throw).
     */
    method CheckPin(p1: byte, p2: byte, lc: byte, data: seq<byte>) returns (r: Response)
      requires Valid() && Receivable(data)
      modifies pin, buf
      ensures Valid() && state == old(state)
      ensures |data| != lc as int ==> r == Thrown(SW_WRONG_LENGTH) && unchanged(pin)
      ensures |data| == lc as int && old(state) == STATE_INIT ==>
                r == Thrown(SW_COMMAND_NOT_ALLOWED) && unchanged(pin)
      ensures |data| == lc as int && old(state) != STATE_INIT
              && !(p1 == 0x01 && p2 == 0x01) && Rejects(p1, p2, 0x01, 0x00) ==>
                r == Thrown(SW_INCORRECT_P1P2) && unchanged(pin)
      ensures |data| == lc as int && old(state) != STATE_INIT
              && ((p1 == 0x01 && p2 == 0x01) || !Rejects(p1, p2, 0x01, 0x00)) ==>
                var cand := VerifyCandidate(p1 == 0x01 && p2 == 0x01, data, crypto, aesKey);
                && (cand.None? ==> r == Thrown(SW_UNKNOWN) && unchanged(pin))
                && (cand.Some? ==> pin.CheckedAgainst(cand.value))
                && (cand.Some? && pin.validated ==> r == Send([masterPW]))
                && (cand.Some? && !pin.validated ==> r == Thrown(TriesSw(pin.triesLeft)))
    {
      Receive(data);
      if |data| != lc as int {
        return Thrown(SW_WRONG_LENGTH);
      }
      if state == STATE_INIT {
        return Thrown(SW_COMMAND_NOT_ALLOWED);
      }
      var encrypted := p1 == 0x01 && p2 == 0x01;
      if !encrypted && Rejects(p1, p2, 0x01, 0x00) {
        return Thrown(SW_INCORRECT_P1P2);
      }
      var cand := LoadVerifyCandidate(encrypted, data);
      if cand.None? {
        return Thrown(SW_UNKNOWN);
      }
      var ok := pin.Check(buf[OFFSET_CDATA..OFFSET_CDATA + PIN_MAX_LENGTH]);
      if !ok {
        return Thrown(TriesSw(pin.GetTriesRemaining()));
      }
      buf[0] := masterPW;
      r := Send(buf[..1]);
    }

    /**
     * The decryption and sentinel scan of one half of `changePIN`'s data,
     * copying its payload to `at`; `len` is the payload length (L1 or L2).
     */
    method CopyDecodedHalf(half: seq<byte>, at: nat) returns (len: nat)
      requires |half| % BLOCK_SIZE == 0 && |half| > 0 && at + BLOCK_SIZE <= buf.Length
      modifies buf
      ensures len == |DecodeHalf(crypto, aesKey, half)|
      ensures buf[..] == Splice(old(buf[..]), at, DecodeHalf(crypto, aesKey, half))
    {
      var dec := EcbDecrypt(crypto, aesKey, half).value;
      var _, n := CopyTrimmed(dec, at);
      len := n;
    }

    /**
     * The encrypted half of `changePIN`'s decoding, once the halves are
     * known to be aligned: the payload of the first half at offset 5, the
     * payload of the second right after it, `lc` ending up as L1 + L2.
     */
    method LoadDecryptedHalves(data: seq<byte>) returns (payload: Option<seq<byte>>)
      requires buf.Length >= MIN_APDU_BUFFER
      requires |data| / 2 % BLOCK_SIZE == 0 && |data| / 2 > 0
      modifies buf
      ensures payload == ChangePayload(true, data, crypto, aesKey)
      ensures payload.Some? ==> buf[OFFSET_CDATA..OFFSET_CDATA + |payload.value|] == payload.value
    {
      var half := |data| / 2;
      // the halves as received at offset 5
      ghost var t1 := DecodeHalf(crypto, aesKey, data[..half]);
      ghost var t2 := DecodeHalf(crypto, aesKey, data[half..2 * half]);
      var len1 := CopyDecodedHalf(data[..half], OFFSET_CDATA);
      ghost var mid := buf[..];
      assert mid[OFFSET_CDATA..OFFSET_CDATA + len1] == t1;
      var len2 := CopyDecodedHalf(data[half..2 * half], OFFSET_CDATA + len1);
      SpliceExtends(mid, OFFSET_CDATA, len1, t2);
      payload := Some(buf[OFFSET_CDATA..OFFSET_CDATA + len1 + len2]);
    }

    /**
     * The decoding half of `changePIN`, after the guards: in encrypted mode
     * both halves are decrypted and their trimmed payloads copied to
     * offset 5 one after the other. The payload length is what `lc` ends up
     * holding.
     */
    method LoadChangePayload(encrypted: bool, data: seq<byte>) returns (payload: Option<seq<byte>>)
      requires buf.Length >= MIN_APDU_BUFFER && Receivable(data)
      requires buf[OFFSET_CDATA..OFFSET_CDATA + |data|] == data
      modifies buf
      ensures payload == ChangePayload(encrypted, data, crypto, aesKey)
      ensures payload.Some? ==> buf[OFFSET_CDATA..OFFSET_CDATA + |payload.value|] == payload.value
    {
      if !encrypted {
        return Some(data);
      }
      var half := |data| / 2;
      if half % BLOCK_SIZE != 0 || half == 0 {
        // CryptoException: the halves are not block aligned; or both
        // (empty) halves decrypt, then tmp1[0] is out of bounds
        return None;
      }
      payload := LoadDecryptedHalves(data);
    }

    /**
     * The end of `changePIN`: the old PIN is checked (the PIN is validated,
     * so it has all its tries), and on a match the new one replaces it.
     */
    method ReplacePin(oldPin: seq<byte>, newPin: seq<byte>) returns (r: Response)
      requires Valid() && pin.validated
      requires |oldPin| == PIN_MAX_LENGTH && |newPin| == PIN_MAX_LENGTH
      modifies pin
      ensures Valid()
      ensures pin.reference == (if oldPin == old(pin.reference) then newPin else old(pin.reference))
      ensures oldPin == old(pin.reference) ==>
                r == Send([]) && pin.triesLeft == PIN_MAX_TRIES && !pin.validated
      ensures oldPin != old(pin.reference) ==>
                && pin.triesLeft == PIN_MAX_TRIES - 1 && !pin.validated
                && r == Thrown(TriesSw(PIN_MAX_TRIES - 1))
    {
      var ok := pin.Check(oldPin);
      if !ok {
        return Thrown(TriesSw(pin.GetTriesRemaining()));
      }
      pin.Update(newPin);
      r := Send([]);
    }

    /** The part of `changePIN` after its guards: decode, length check, replacement. */
    method ChangeValidatedPin(encrypted: bool, data: seq<byte>) returns (r: Response)
      requires Valid() && pin.validated && Receivable(data)
      requires buf[OFFSET_CDATA..OFFSET_CDATA + |data|] == data
      modifies pin, buf
      ensures Valid()
      ensures var payload := ChangePayload(encrypted, data, crypto, aesKey);
              && (payload.None? ==> r == Thrown(SW_UNKNOWN) && unchanged(pin))
              && (payload.Some? && |payload.value| != 2 * PIN_MAX_LENGTH ==>
                    r == Thrown(SW_WRONG_LENGTH) && unchanged(pin))
              && (payload.Some? && |payload.value| == 2 * PIN_MAX_LENGTH ==>
                    var oldPin := payload.value[..PIN_MAX_LENGTH];
                    if oldPin == old(pin.reference) then
                      && r == Send([])
                      && pin.reference == payload.value[PIN_MAX_LENGTH..]
                      && pin.triesLeft == PIN_MAX_TRIES && !pin.validated
                    else
                      && pin.CheckedAgainst(oldPin)
                      && r == Thrown(TriesSw(pin.triesLeft)))
    {
      var payload := LoadChangePayload(encrypted, data);
      if payload.None? {
        return Thrown(SW_UNKNOWN);
      }
      if |payload.value| != 2 * PIN_MAX_LENGTH {
        return Thrown(SW_WRONG_LENGTH);
      }
      SubSlice(buf[..], OFFSET_CDATA, 2 * PIN_MAX_LENGTH, 0, PIN_MAX_LENGTH);
      SubSlice(buf[..], OFFSET_CDATA, 2 * PIN_MAX_LENGTH, PIN_MAX_LENGTH, 2 * PIN_MAX_LENGTH);
      r := ReplacePin(buf[OFFSET_CDATA..OFFSET_CDATA + PIN_MAX_LENGTH],
                      buf[OFFSET_CDATA + PIN_MAX_LENGTH..OFFSET_CDATA + 2 * PIN_MAX_LENGTH]);
    }

    /**
     * `changePIN` (INS 0x22): with the PIN validated, a 32-byte payload of
     * old PIN then new PIN (see `ChangePayload`) replaces the reference when
     * the old PIN checks. A wrong old PIN costs a try like `checkPIN`. After
     * a change the PIN is no longer validated.
     */
    method ChangePin(p1: byte, p2: byte, lc: byte, data: seq<byte>) returns (r: Response)
      requires Valid() && Receivable(data)
      modifies pin, buf
      ensures Valid() && state == old(state)
      ensures !old(pin.validated) ==> r == Thrown(SW_SECURITY_STATUS_NOT_SATISFIED) && unchanged(pin)
      ensures old(pin.validated) && |data| != lc as int ==> r == Thrown(SW_WRONG_LENGTH) && unchanged(pin)
      ensures old(pin.validated) && |data| == lc as int
              && !(p1 == 0x00 && p2 == 0x01) && Rejects(p1, p2, 0x00, 0x02) ==>
                r == Thrown(SW_INCORRECT_P1P2) && unchanged(pin)
      ensures old(pin.validated) && |data| == lc as int
              && ((p1 == 0x00 && p2 == 0x01) || !Rejects(p1, p2, 0x00, 0x02)) ==>
                var payload := ChangePayload(p1 == 0x00 && p2 == 0x01, data, crypto, aesKey);
                && (payload.None? ==> r == Thrown(SW_UNKNOWN) && unchanged(pin))
                && (payload.Some? && |payload.value| != 2 * PIN_MAX_LENGTH ==>
                      r == Thrown(SW_WRONG_LENGTH) && unchanged(pin))
                && (payload.Some? && |payload.value| == 2 * PIN_MAX_LENGTH ==>
                      var oldPin := payload.value[..PIN_MAX_LENGTH];
                      if oldPin == old(pin.reference) then
                        && r == Send([])
                        && pin.reference == payload.value[PIN_MAX_LENGTH..]
                        && pin.triesLeft == PIN_MAX_TRIES && !pin.validated
                      else
                        && pin.CheckedAgainst(oldPin)
                        && r == Thrown(TriesSw(pin.triesLeft)))
    {
      if !pin.validated {
        return Thrown(SW_SECURITY_STATUS_NOT_SATISFIED);
      }
      Receive(data);
      if |data| != lc as int {
        return Thrown(SW_WRONG_LENGTH);
      }
      var encrypted := p1 == 0x00 && p2 == 0x01;
      if !encrypted && Rejects(p1, p2, 0x00, 0x02) {
        return Thrown(SW_INCORRECT_P1P2);
      }
      r := ChangeValidatedPin(encrypted, data);
    }

    /**
     * Puts the PUK candidate of `resetPIN` and `cardReset` at offset 5: in
     * encrypted mode, the last 8 bytes of the decrypted first block.
     */
    method LoadPukCandidate(encrypted: bool, ghost area: seq<byte>)
      requires buf.Length >= MIN_APDU_BUFFER && buf[OFFSET_CDATA..] == area
      modifies buf
      ensures buf[OFFSET_CDATA..OFFSET_CDATA + PUK_LENGTH] == PukCandidate(encrypted, area, crypto, aesKey)
      ensures buf[OFFSET_CDATA + PUK_LENGTH..] == area[PUK_LENGTH..]
    {
      PrefixOfSuffix(buf[..], OFFSET_CDATA, BLOCK_SIZE);
      PrefixOfSuffix(buf[..], OFFSET_CDATA, PUK_LENGTH);
      if encrypted {
        var tmp1 := buf[OFFSET_CDATA..OFFSET_CDATA + BLOCK_SIZE];
        var dec := EcbDecrypt(crypto, aesKey, tmp1).value;
        assert tmp1[..BLOCK_SIZE] == tmp1;
        assert dec == dec[..BLOCK_SIZE] == crypto.decrypt(aesKey, tmp1);
        ArrayCopy(buf, OFFSET_CDATA, dec[PUK_LENGTH..BLOCK_SIZE]);
      }
    }

    /**
     * The part of `resetPIN` after its guards, over the data area `area`
     * received at offset 5: the PUK check, then the outcome of
     * `ResetPinOutcome`.
     */
    method UnblockPin(encrypted: bool, data: seq<byte>, ghost area: seq<byte>) returns (r: Response)
      requires Valid() && Receivable(data) && |data| < 256
      requires buf[OFFSET_CDATA..] == area && area[..|data|] == data
      modifies pin, puk, buf
      ensures Valid()
      ensures encrypted && |data| == BLOCK_SIZE ==> r == Thrown(SW_UNKNOWN) && unchanged(pin, puk)
      ensures !(encrypted && |data| == BLOCK_SIZE) ==>
                && puk.CheckedAgainst(PukCandidate(encrypted, area, crypto, aesKey))
                && (!puk.validated ==> r == Thrown(TriesSw(puk.triesLeft)) && unchanged(pin))
                && (puk.validated ==>
                      match ResetPinOutcome(encrypted, data)
                      case PukOnly => r == Thrown(SW_PUK_CORRECT) && unchanged(pin)
                      case BadLength => r == Thrown(SW_WRONG_LENGTH) && unchanged(pin)
                      case NewPin(newPin) =>
                        && r == Send([])
                        && pin.reference == newPin && pin.triesLeft == PIN_MAX_TRIES && !pin.validated)
    {
      LoadPukCandidate(encrypted, area);
      if encrypted && |data| == BLOCK_SIZE {
        // the second half is decrypted as 8 bytes: never block aligned
        assert EcbDecrypt(crypto, aesKey, buf[OFFSET_CDATA + PUK_LENGTH..OFFSET_CDATA + BLOCK_SIZE]).None?;
        return Thrown(SW_UNKNOWN);
      }
      var ok := puk.Check(buf[OFFSET_CDATA..OFFSET_CDATA + PUK_LENGTH]);
      if !ok {
        return Thrown(TriesSw(puk.GetTriesRemaining()));
      }
      r := ApplyResetOutcome(encrypted, data, area);
    }

    /**
     * The end of `resetPIN` once the PUK has been accepted, with the data
     * area `area` still in the buffer after the PUK: the decision of
     * `ResetPinOutcome` carried out.
     */
    method ApplyResetOutcome(encrypted: bool, data: seq<byte>, ghost area: seq<byte>) returns (r: Response)
      requires Valid() && Receivable(data) && |data| < 256
      requires |area| == buf.Length - OFFSET_CDATA && area[..|data|] == data
      requires buf[OFFSET_CDATA + PUK_LENGTH..] == area[PUK_LENGTH..]
      modifies pin, buf
      ensures Valid()
      ensures match ResetPinOutcome(encrypted, data)
              case PukOnly => r == Thrown(SW_PUK_CORRECT) && unchanged(pin)
              case BadLength => r == Thrown(SW_WRONG_LENGTH) && unchanged(pin)
              case NewPin(newPin) =>
                && r == Send([])
                && pin.reference == newPin && pin.triesLeft == PIN_MAX_TRIES && !pin.validated
    {
      var n := if encrypted then PUK_LENGTH else |data|;
      if AsJavaByte(n) == PUK_LENGTH as int {
        return Thrown(SW_PUK_CORRECT);
      } else if AsJavaByte(n - PUK_LENGTH) < PIN_MIN_LENGTH as int
                || AsJavaByte(n - PUK_LENGTH) > PIN_MAX_LENGTH as int {
        return Thrown(SW_WRONG_LENGTH);
      }
      ghost var before := buf[..];
      ArrayFillZero(buf, OFFSET_CDATA + n, PIN_MAX_LENGTH - (n - PUK_LENGTH));
      SpliceExtends(before, OFFSET_CDATA + PUK_LENGTH, n - PUK_LENGTH, Zeros(PIN_MAX_LENGTH - (n - PUK_LENGTH)));
      assert before[OFFSET_CDATA + PUK_LENGTH..OFFSET_CDATA + n] == data[PUK_LENGTH..] by {
        PrefixOfSuffix(before, OFFSET_CDATA + PUK_LENGTH, n - PUK_LENGTH);
        assert before[OFFSET_CDATA + PUK_LENGTH..] == area[PUK_LENGTH..];
        assert area[PUK_LENGTH..][..n - PUK_LENGTH] == data[PUK_LENGTH..];
      }
      pin.Update(buf[OFFSET_CDATA + PUK_LENGTH..OFFSET_CDATA + PUK_LENGTH + PIN_MAX_LENGTH]);
      r := Send([]);
    }

    /**
     * `resetPIN` (INS 0x23): only for a blocked PIN, outside the initial
     * state. A correct PUK then either answers 0x9090 (the data was the PUK
     * alone), or rejects the length, or sets the new PIN that follows the
     * PUK (see `ResetPinOutcome`). A wrong PUK costs a PUK try.
     */
    method ResetPin(p1: byte, p2: byte, lc: byte, data: seq<byte>) returns (r: Response)
      requires Valid() && Receivable(data)
      modifies pin, puk, buf
      ensures Valid() && state == old(state)
      ensures old(pin.triesLeft) != 0 ==>
                r == Thrown(TriesSw(old(pin.triesLeft))) && unchanged(pin, puk)
      ensures old(pin.triesLeft) == 0 && |data| != lc as int ==>
                r == Thrown(SW_WRONG_LENGTH) && unchanged(pin, puk)
      ensures old(pin.triesLeft) == 0 && |data| == lc as int && old(state) == STATE_INIT ==>
                r == Thrown(SW_COMMAND_NOT_ALLOWED) && unchanged(pin, puk)
      ensures old(pin.triesLeft) == 0 && |data| == lc as int && old(state) != STATE_INIT
              && !(p1 == 0x01 && p2 == 0x01) && Rejects(p1, p2, 0x01, 0x02) ==>
                r == Thrown(SW_INCORRECT_P1P2) && unchanged(pin, puk)
      ensures old(pin.triesLeft) == 0 && |data| == lc as int && old(state) != STATE_INIT
              && p1 == 0x01 && p2 == 0x01 && |data| == BLOCK_SIZE ==>
                r == Thrown(SW_UNKNOWN) && unchanged(pin, puk)
      ensures old(pin.triesLeft) == 0 && |data| == lc as int && old(state) != STATE_INIT
              && ((p1 == 0x01 && p2 == 0x01 && |data| != BLOCK_SIZE) || (!(p1 == 0x01 && p2 == 0x01) && !Rejects(p1, p2, 0x01, 0x02))) ==>
                var encrypted := p1 == 0x01 && p2 == 0x01;
                && puk.CheckedAgainst(PukCandidate(encrypted, DataArea(old(buf[..]), data), crypto, aesKey))
                && (!puk.validated ==> r == Thrown(TriesSw(puk.triesLeft)) && unchanged(pin))
                && (puk.validated ==>
                      match ResetPinOutcome(encrypted, data)
                      case PukOnly => r == Thrown(SW_PUK_CORRECT) && unchanged(pin)
                      case BadLength => r == Thrown(SW_WRONG_LENGTH) && unchanged(pin)
                      case NewPin(newPin) =>
                        && r == Send([])
                        && pin.reference == newPin && pin.triesLeft == PIN_MAX_TRIES && !pin.validated)
    {
      if pin.GetTriesRemaining() != 0 {
        return Thrown(TriesSw(pin.GetTriesRemaining()));
      }
      Receive(data);
      if |data| != lc as int {
        return Thrown(SW_WRONG_LENGTH);
      }
      var n := |data|;
      if state == STATE_INIT {
        return Thrown(SW_COMMAND_NOT_ALLOWED);
      }
      var encrypted := p1 == 0x01 && p2 == 0x01;
      if !encrypted && Rejects(p1, p2, 0x01, 0x02) {
        return Thrown(SW_INCORRECT_P1P2);
      }
      r := UnblockPin(encrypted, data, DataArea(old(buf[..]), data));
    }

    /** The part of `cardReset` after its guards: the PUK check, then the wipe. */
    method CheckPukAndWipe(encrypted: bool, ghost area: seq<byte>) returns (r: Response)
      requires Valid() && buf[OFFSET_CDATA..] == area
      modifies this, puk, buf
      ensures Valid() && aesKey == old(aesKey)
      ensures puk.CheckedAgainst(PukCandidate(encrypted, area, crypto, aesKey))
      ensures !puk.validated ==> r == Thrown(TriesSw(puk.triesLeft)) && unchanged(this)
      ensures puk.validated ==>
                && r == Send([])
                && files == map[] && state == STATE_INIT
                && masterPW == MASTER_PW_STORED_NO && masterPWlength == 0
    {
      LoadPukCandidate(encrypted, area);
      var ok := puk.Check(buf[OFFSET_CDATA..OFFSET_CDATA + PUK_LENGTH]);
      if !ok {
        return Thrown(TriesSw(puk.GetTriesRemaining()));
      }
      Wipe();
      r := Send([]);
    }

    /**
     * `cardReset` (INS 0x24): with the PIN validated, a correct PUK wipes
     * the card: every file is deleted and the applet returns to the initial
     * state without a master password. The PIN, its validation and the
     * transport key are kept. A wrong PUK costs a PUK try.
     */
    method CardReset(p1: byte, p2: byte, lc: byte, data: seq<byte>) returns (r: Response)
      requires Valid() && Receivable(data)
      modifies this, puk, buf
      ensures Valid() && aesKey == old(aesKey)
      ensures !old(pin.validated) ==>
                r == Thrown(SW_SECURITY_STATUS_NOT_SATISFIED) && unchanged(this, puk)
      ensures old(pin.validated) && |data| != lc as int ==>
                r == Thrown(SW_WRONG_LENGTH) && unchanged(this, puk)
      ensures old(pin.validated) && |data| == lc as int
              && !(p1 == 0x00 && p2 == 0x01) && Rejects(p1, p2, 0x00, 0x00) ==>
                r == Thrown(SW_INCORRECT_P1P2) && unchanged(this, puk)
      ensures old(pin.validated) && |data| == lc as int
              && ((p1 == 0x00 && p2 == 0x01) || !Rejects(p1, p2, 0x00, 0x00)) ==>
                && puk.CheckedAgainst(PukCandidate(p1 == 0x00 && p2 == 0x01, DataArea(old(buf[..]), data), crypto, aesKey))
                && (!puk.validated ==> r == Thrown(TriesSw(puk.triesLeft)) && unchanged(this))
                && (puk.validated ==>
                      && r == Send([])
                      && files == map[] && state == STATE_INIT
                      && masterPW == MASTER_PW_STORED_NO && masterPWlength == 0)
    {
      if !pin.validated {
        return Thrown(SW_SECURITY_STATUS_NOT_SATISFIED);
      }
      Receive(data);
      if |data| != lc as int {
        return Thrown(SW_WRONG_LENGTH);
      }
      var encrypted := p1 == 0x00 && p2 == 0x01;
      if !encrypted && Rejects(p1, p2, 0x00, 0x00) {
        return Thrown(SW_INCORRECT_P1P2);
      }
      r := CheckPukAndWipe(encrypted, DataArea(old(buf[..]), data));
    }

    /**
     * `setMasterPW` (INS 0x30): with the PIN validated, stores the master
     * password of `SetPayload` and records its length. An existing password
     * (or any in the initial state) is deleted first, before the P1/P2
     * check, so a rejected or failing command still loses it.
     */
    method SetMasterPw(p1: byte, p2: byte, lc: byte, data: seq<byte>) returns (r: Response)
      requires Valid() && Receivable(data)
      modifies this, buf
      ensures Valid() && state == old(state) && aesKey == old(aesKey)
      ensures !old(pin.validated) ==>
                r == Thrown(SW_SECURITY_STATUS_NOT_SATISFIED) && unchanged(this)
      ensures old(pin.validated) && |data| != lc as int ==>
                r == Thrown(SW_WRONG_LENGTH) && unchanged(this)
      ensures old(pin.validated) && |data| == lc as int ==>
                var encrypted := p1 == 0x01 && p2 == 0x01;
                var stored := SetPayload(encrypted, data, DataArea(old(buf[..]), data), crypto, aesKey);
                if (!encrypted && Rejects(p1, p2, 0x02, 0x01)) || stored.None? then
                  && r == (if stored.Some? then Thrown(SW_INCORRECT_P1P2) else Thrown(SW_UNKNOWN))
                  && files == Delete(old(files), MasterPw)
                  && masterPW == MASTER_PW_STORED_NO && masterPWlength == 0
                else
                  && r == Send([])
                  && files == old(files)[MasterPw := stored.value]
                  && masterPW == MASTER_PW_STORED_YES && masterPWlength as int == |stored.value|
    {
      if !pin.validated {
        return Thrown(SW_SECURITY_STATUS_NOT_SATISFIED);
      }
      Receive(data);
      if |data| != lc as int {
        return Thrown(SW_WRONG_LENGTH);
      }
      var n := |data|;
      if state == STATE_INIT || masterPW == MASTER_PW_STORED_YES {
        PurgeMasterPw();
      }
      assert files == Delete(old(files), MasterPw);
      var encrypted := p1 == 0x01 && p2 == 0x01;
      if !encrypted && Rejects(p1, p2, 0x02, 0x01) {
        return Thrown(SW_INCORRECT_P1P2);
      }
      if encrypted {
        ghost var area := DataArea(old(buf[..]), data);
        PrefixOfSuffix(buf[..], OFFSET_CDATA, PW_BLOCK_SIZE);
        var dec := EcbDecrypt(crypto, aesKey, buf[OFFSET_CDATA..OFFSET_CDATA + PW_BLOCK_SIZE]).value;
        var len := Signed(dec[0]);
        if len < 0 || PW_BLOCK_SIZE as int - len < 0 {
          // arrayCopy with a negative length or offset
          return Thrown(SW_UNKNOWN);
        }
        ArrayCopy(buf, OFFSET_CDATA, dec[PW_BLOCK_SIZE - len..]);
        n := len;
      }
      ghost var pw := buf[OFFSET_CDATA..OFFSET_CDATA + n];
      assert Some(pw) == SetPayload(encrypted, data, DataArea(old(buf[..]), data), crypto, aesKey);
      DeleteThenReplace(old(files), MasterPw, pw);
      StoreMasterPw(buf[OFFSET_CDATA..OFFSET_CDATA + n]);
      r := Send([]);
    }

    /**
     * `getMasterPW` (INS 0x31): with the PIN validated and a password
     * stored, answers `GetMasterPwResponse`, the password read back with
     * the recorded length.
     */
    method GetMasterPw(p1: byte, p2: byte, lc: byte, data: seq<byte>) returns (r: Response)
      requires Valid() && Receivable(data)
      modifies buf
      ensures Valid()
      ensures !pin.validated ==> r == Thrown(SW_SECURITY_STATUS_NOT_SATISFIED)
      ensures pin.validated && |data| != lc as int ==> r == Thrown(SW_WRONG_LENGTH)
      ensures pin.validated && |data| == lc as int
              && (state == STATE_INIT || masterPW == MASTER_PW_STORED_NO) ==>
                r == Thrown(SW_COMMAND_NOT_ALLOWED)
      ensures pin.validated && |data| == lc as int
              && state != STATE_INIT && masterPW == MASTER_PW_STORED_YES ==>
                var encrypted := p1 == 0x01 && p2 == 0x02;
                if !encrypted && Rejects(p1, p2, 0x02, 0x02) then r == Thrown(SW_INCORRECT_P1P2)
                else r == GetMasterPwResponse(encrypted, files[MasterPw], crypto, aesKey)
    {
      if !pin.validated {
        return Thrown(SW_SECURITY_STATUS_NOT_SATISFIED);
      }
      Receive(data);
      if |data| != lc as int {
        return Thrown(SW_WRONG_LENGTH);
      }
      if state == STATE_INIT || masterPW == MASTER_PW_STORED_NO {
        return Thrown(SW_COMMAND_NOT_ALLOWED);
      }
      var encrypted := p1 == 0x01 && p2 == 0x02;
      if encrypted {
        var tmpsen := new byte[PW_BLOCK_SIZE];
        ArrayFillZero(tmpsen, 0, PW_BLOCK_SIZE);
        tmpsen[0] := masterPWlength;
        var desOff := PW_BLOCK_SIZE as int - Signed(masterPWlength);
        var tmp := Read(files, MasterPw, 0, Signed(masterPWlength));
        if tmp.None? {
          // the length byte reads negative
          return Thrown(SW_UNKNOWN);
        }
        if desOff < 0 {
          // arrayCopy to a negative offset
          return Thrown(SW_UNKNOWN);
        }
        ghost var pw := files[MasterPw];
        assert tmp.value == pw;
        assert tmpsen[..] == Zeros(PW_BLOCK_SIZE)[0 := |pw| as byte];
        ArrayCopy(tmpsen, desOff, tmp.value);
        var ciphertext := EcbEncrypt(crypto, aesKey, tmpsen[..]).value;
        ArrayCopy(buf, 0, ciphertext);
        return Send(buf[..PW_BLOCK_SIZE]);
      } else if Rejects(p1, p2, 0x02, 0x02) {
        return Thrown(SW_INCORRECT_P1P2);
      }
      var tmp := Read(files, MasterPw, 0, Signed(masterPWlength));
      if tmp.None? {
        // the length byte reads negative
        return Thrown(SW_UNKNOWN);
      }
      assert tmp.value == files[MasterPw];
      ArrayCopy(buf, 0, tmp.value);
      r := Send(buf[..|tmp.value|]);
    }

    /**
     * `delMasterPW` (INS 0x32): with the PIN validated and a password
     * stored, deletes it. Unlike the other handlers, a missing validation
     * answers 0x6985.
     */
    method DelMasterPw(p1: byte, p2: byte, lc: byte, data: seq<byte>) returns (r: Response)
      requires Valid() && Receivable(data)
      modifies this, buf
      ensures Valid() && state == old(state) && aesKey == old(aesKey)
      ensures !old(pin.validated) ==> r == Thrown(SW_CONDITIONS_NOT_SATISFIED) && unchanged(this)
      ensures old(pin.validated) && |data| != lc as int ==> r == Thrown(SW_WRONG_LENGTH) && unchanged(this)
      ensures old(pin.validated) && |data| == lc as int
              && (old(state) == STATE_INIT || old(masterPW) == MASTER_PW_STORED_NO) ==>
                r == Thrown(SW_COMMAND_NOT_ALLOWED) && unchanged(this)
      ensures old(pin.validated) && |data| == lc as int
              && old(state) != STATE_INIT && old(masterPW) == MASTER_PW_STORED_YES ==>
                if Rejects(p1, p2, 0x02, 0x03) then r == Thrown(SW_INCORRECT_P1P2) && unchanged(this)
                else
                  && r == Send([]) && files == Delete(old(files), MasterPw)
                  && masterPW == MASTER_PW_STORED_NO && masterPWlength == 0
    {
      if !pin.validated {
        return Thrown(SW_CONDITIONS_NOT_SATISFIED);
      }
      Receive(data);
      if |data| != lc as int {
        return Thrown(SW_WRONG_LENGTH);
      }
      if state == STATE_INIT || masterPW == MASTER_PW_STORED_NO {
        return Thrown(SW_COMMAND_NOT_ALLOWED);
      }
      if Rejects(p1, p2, 0x02, 0x03) {
        return Thrown(SW_INCORRECT_P1P2);
      }
      PurgeMasterPw();
      r := Send([]);
    }

    /**
     * The creations of `createFile`, one call to the storage collaborator
     * at a time: a step that faults ends the command and leaves the files
     * of the steps before it.
     */
    method CreateFiles(size1: int, size2: int, nameLen: int, ghost area: seq<byte>) returns (ok: bool)
      requires Valid() && state == STATE_SECURE_NO_DATA
      requires buf[OFFSET_CDATA..] == area && 4 + nameLen <= |area|
      modifies this
      ensures Valid()
      ensures (files, ok) == CreateDataFiles(old(files), size1, size2, nameLen, area)
      ensures state == old(state) && masterPW == old(masterPW)
      ensures masterPWlength == old(masterPWlength) && aesKey == old(aesKey)
    {
      var c1 := Create(files, Data1, size1);
      if c1.None? {
        return false;
      }
      files := c1.value;
      var c2 := Create(files, Data2, size2);
      if c2.None? {
        return false;
      }
      files := c2.value;
      var c3 := Create(files, FileName, nameLen);
      if c3.None? {
        return false;
      }
      files := c3.value;
      assert buf[OFFSET_CDATA + 4..OFFSET_CDATA + 4 + nameLen] == area[4..4 + nameLen] by {
        SubSlice(buf[..], OFFSET_CDATA, |area|, 4, 4 + nameLen);
        assert buf[..][OFFSET_CDATA..OFFSET_CDATA + |area|] == area;
      }
      files := Write(files, FileName, 0, buf[OFFSET_CDATA + 4..OFFSET_CDATA + 4 + nameLen]).value;
      ok := true;
    }

    /**
     * `createFile` (INS 0x40): with the PIN validated and in the state
     * without data, creates the two data files of the sizes held by the
     * first four data bytes (big-endian shorts) and the name file holding
     * the remaining Lc - 4 bytes, then enters the data state. A negative
     * size faults, keeping the files created before it.
     */
    method CreateFile(p1: byte, p2: byte, lc: byte, data: seq<byte>) returns (r: Response)
      requires Valid() && Receivable(data)
      modifies this, buf
      ensures Valid()
      ensures masterPW == old(masterPW) && masterPWlength == old(masterPWlength) && aesKey == old(aesKey)
      ensures !pin.validated ==> r == Thrown(SW_SECURITY_STATUS_NOT_SATISFIED) && unchanged(this)
      ensures pin.validated && |data| != lc as int ==> r == Thrown(SW_WRONG_LENGTH) && unchanged(this)
      ensures pin.validated && |data| == lc as int && old(state) != STATE_SECURE_NO_DATA ==>
                r == Thrown(SW_COMMAND_NOT_ALLOWED) && unchanged(this)
      ensures pin.validated && |data| == lc as int && old(state) == STATE_SECURE_NO_DATA
              && Rejects(p1, p2, 0x03, 0x01) ==>
                r == Thrown(SW_INCORRECT_P1P2) && unchanged(this)
      ensures pin.validated && |data| == lc as int && old(state) == STATE_SECURE_NO_DATA
              && !Rejects(p1, p2, 0x03, 0x01) ==>
                var area := DataArea(old(buf[..]), data);
                var created := CreateDataFiles(old(files), GetShort(area, 0), GetShort(area, 2), |data| - 4, area);
                && files == created.0
                && (created.1 ==> r == Send([]) && state == STATE_SECURE_DATA)
                && (!created.1 ==> r == Thrown(SW_UNKNOWN) && state == old(state))
    {
      if !pin.validated {
        return Thrown(SW_SECURITY_STATUS_NOT_SATISFIED);
      }
      Receive(data);
      if |data| != lc as int {
        return Thrown(SW_WRONG_LENGTH);
      }
      if state == STATE_INIT || state == STATE_SECURE_DATA {
        return Thrown(SW_COMMAND_NOT_ALLOWED);
      }
      if Rejects(p1, p2, 0x03, 0x01) {
        return Thrown(SW_INCORRECT_P1P2);
      }
      var area := buf[OFFSET_CDATA..];
      var size1 := GetShort(area, 0);
      var size2 := GetShort(area, 2);
      var ok := CreateFiles(size1, size2, lc as int - 4, area);
      if !ok {
        return Thrown(SW_UNKNOWN);
      }
      state := STATE_SECURE_DATA;
      r := Send([]);
    }

    /** The data file P2 addresses for `writeFile`, `readFile`: 1 or 2. */
    static function DataFile(p2: byte): (id: FileId)
      requires p2 == 0x01 || p2 == 0x02
      ensures id == Data1 <==> p2 == 0x01
      ensures id != FileName && id != MasterPw
    {
      if p2 == 0x01 then Data1 else Data2
    }

    /**
     * `writeFile` (INS 0x41): with the PIN validated and in the data state,
     * writes the data after the two-byte file offset into data file P2 at
     * that offset. Fewer than two data bytes (a negative length) or a range
     * the file does not hold faults.
     */
    method WriteFile(p1: byte, p2: byte, lc: byte, data: seq<byte>) returns (r: Response)
      requires Valid() && Receivable(data)
      modifies this, buf
      ensures Valid()
      ensures state == old(state) && masterPW == old(masterPW)
      ensures masterPWlength == old(masterPWlength) && aesKey == old(aesKey)
      ensures !pin.validated ==> r == Thrown(SW_SECURITY_STATUS_NOT_SATISFIED) && files == old(files)
      ensures pin.validated && |data| != lc as int ==> r == Thrown(SW_WRONG_LENGTH) && files == old(files)
      ensures pin.validated && |data| == lc as int && state != STATE_SECURE_DATA ==>
                r == Thrown(SW_COMMAND_NOT_ALLOWED) && files == old(files)
      ensures pin.validated && |data| == lc as int && state == STATE_SECURE_DATA
              && (p1 != 0x03 || (p2 != 0x01 && p2 != 0x02)) ==>
                r == Thrown(SW_INCORRECT_P1P2) && files == old(files)
      ensures pin.validated && |data| == lc as int && state == STATE_SECURE_DATA
              && p1 == 0x03 && (p2 == 0x01 || p2 == 0x02) ==>
                if |data| < 2 then r == Thrown(SW_UNKNOWN) && files == old(files)
                else
                  var written := Write(old(files), DataFile(p2), GetShort(DataArea(old(buf[..]), data), 0), data[2..]);
                  && (written.None? ==> r == Thrown(SW_UNKNOWN) && files == old(files))
                  && (written.Some? ==> r == Send([]) && files == written.value)
    {
      if !pin.validated {
        return Thrown(SW_SECURITY_STATUS_NOT_SATISFIED);
      }
      Receive(data);
      if |data| != lc as int {
        return Thrown(SW_WRONG_LENGTH);
      }
      if state == STATE_INIT || state == STATE_SECURE_NO_DATA {
        return Thrown(SW_COMMAND_NOT_ALLOWED);
      }
      if p1 != 0x03 {
        return Thrown(SW_INCORRECT_P1P2);
      }
      var length := lc as int - 2;
      var fileOffset := GetShort(buf[..], OFFSET_CDATA);
      assert fileOffset == GetShort(DataArea(old(buf[..]), data), 0);
      if p2 != 0x01 && p2 != 0x02 {
        return Thrown(SW_INCORRECT_P1P2);
      }
      if length < 0 {
        // arrayCopy of a negative length
        return Thrown(SW_UNKNOWN);
      }
      assert buf[OFFSET_CDATA + 2..OFFSET_CDATA + 2 + length] == data[2..];
      var written := Write(files, DataFile(p2), fileOffset, buf[OFFSET_CDATA + 2..OFFSET_CDATA + 2 + length]);
      if written.None? {
        return Thrown(SW_UNKNOWN);
      }
      files := written.value;
      r := Send([]);
    }

    /**
     * `readFile` (INS 0x42): with the PIN validated and in the data state,
     * answers the bytes of data file P2 at the offset and length given by
     * the two shorts at the start of the data area. A range the file does
     * not hold, or one longer than the buffer, faults.
     */
    method ReadFile(p1: byte, p2: byte, lc: byte, data: seq<byte>) returns (r: Response)
      requires Valid() && Receivable(data)
      modifies buf
      ensures Valid()
      ensures !pin.validated ==> r == Thrown(SW_SECURITY_STATUS_NOT_SATISFIED)
      ensures pin.validated && |data| != lc as int ==> r == Thrown(SW_WRONG_LENGTH)
      ensures pin.validated && |data| == lc as int && state != STATE_SECURE_DATA ==>
                r == Thrown(SW_COMMAND_NOT_ALLOWED)
      ensures pin.validated && |data| == lc as int && state == STATE_SECURE_DATA
              && (p1 != 0x03 || (p2 != 0x01 && p2 != 0x02)) ==>
                r == Thrown(SW_INCORRECT_P1P2)
      ensures pin.validated && |data| == lc as int && state == STATE_SECURE_DATA
              && p1 == 0x03 && (p2 == 0x01 || p2 == 0x02) ==>
                var area := DataArea(old(buf[..]), data);
                var read := Read(files, DataFile(p2), GetShort(area, 0), GetShort(area, 2));
                if read.Some? && |read.value| <= buf.Length then r == Send(read.value)
                else r == Thrown(SW_UNKNOWN)
    {
      if !pin.validated {
        return Thrown(SW_SECURITY_STATUS_NOT_SATISFIED);
      }
      Receive(data);
      if |data| != lc as int {
        return Thrown(SW_WRONG_LENGTH);
      }
      if state == STATE_INIT || state == STATE_SECURE_NO_DATA {
        return Thrown(SW_COMMAND_NOT_ALLOWED);
      }
      if p1 != 0x03 {
        return Thrown(SW_INCORRECT_P1P2);
      }
      var length := GetShort(buf[..], OFFSET_CDATA + 2);
      var fileOffset := GetShort(buf[..], OFFSET_CDATA);
      assert fileOffset == GetShort(DataArea(old(buf[..]), data), 0);
      assert length == GetShort(DataArea(old(buf[..]), data), 2);
      if p2 != 0x01 && p2 != 0x02 {
        return Thrown(SW_INCORRECT_P1P2);
      }
      var read := Read(files, DataFile(p2), fileOffset, length);
      if read.None? || length > buf.Length {
        // the collaborator rejects the range, or arrayCopy overruns the buffer
        return Thrown(SW_UNKNOWN);
      }
      ArrayCopy(buf, 0, read.value);
      r := Send(buf[..length]);
    }

    /**
     * `deleteFile` (INS 0x43): with the PIN validated and in the data state,
     * deletes the files P2 selects (see `FilesAfterDelete`) and returns to
     * the state without data, whichever files remain.
     */
    method DeleteFile(p1: byte, p2: byte, lc: byte, data: seq<byte>) returns (r: Response)
      requires Valid() && Receivable(data)
      modifies this, buf
      ensures Valid()
      ensures masterPW == old(masterPW) && masterPWlength == old(masterPWlength) && aesKey == old(aesKey)
      ensures !pin.validated ==> r == Thrown(SW_SECURITY_STATUS_NOT_SATISFIED) && unchanged(this)
      ensures pin.validated && |data| != lc as int ==> r == Thrown(SW_WRONG_LENGTH) && unchanged(this)
      ensures pin.validated && |data| == lc as int && old(state) != STATE_SECURE_DATA ==>
                r == Thrown(SW_COMMAND_NOT_ALLOWED) && unchanged(this)
      ensures pin.validated && |data| == lc as int && old(state) == STATE_SECURE_DATA
              && (p1 != 0x03 || !(1 <= p2 <= 3)) ==>
                r == Thrown(SW_INCORRECT_P1P2) && unchanged(this)
      ensures pin.validated && |data| == lc as int && old(state) == STATE_SECURE_DATA
              && p1 == 0x03 && 1 <= p2 <= 3 ==>
                && r == Send([]) && state == STATE_SECURE_NO_DATA
                && files == FilesAfterDelete(old(files), p2)
    {
      if !pin.validated {
        return Thrown(SW_SECURITY_STATUS_NOT_SATISFIED);
      }
      Receive(data);
      if |data| != lc as int {
        return Thrown(SW_WRONG_LENGTH);
      }
      if state == STATE_INIT || state == STATE_SECURE_NO_DATA {
        return Thrown(SW_COMMAND_NOT_ALLOWED);
      }
      if p1 != 0x03 {
        return Thrown(SW_INCORRECT_P1P2);
      }
      if p2 == 0x01 {
        files := Delete(files, Data1);
        files := Delete(files, FileName);
      } else if p2 == 0x02 {
        files := Delete(files, Data2);
      } else if p2 == 0x03 {
        files := Delete(files, Data1);
        files := Delete(files, Data2);
        files := Delete(files, FileName);
      } else {
        return Thrown(SW_INCORRECT_P1P2);
      }
      state := STATE_SECURE_NO_DATA;
      r := Send([]);
    }

    /**
     * `getFileSize` (INS 0x44): with the PIN validated, outside the initial
     * state, answers the sizes of the two data files as big-endian shorts.
     * In the state without data a missing file faults.
     */
    method GetFileSize(p1: byte, p2: byte, lc: byte, data: seq<byte>) returns (r: Response)
      requires Valid() && Receivable(data)
      modifies buf
      ensures Valid()
      ensures !pin.validated ==> r == Thrown(SW_SECURITY_STATUS_NOT_SATISFIED)
      ensures pin.validated && |data| != lc as int ==> r == Thrown(SW_WRONG_LENGTH)
      ensures pin.validated && |data| == lc as int && state == STATE_INIT ==>
                r == Thrown(SW_COMMAND_NOT_ALLOWED)
      ensures pin.validated && |data| == lc as int && state != STATE_INIT
              && Rejects(p1, p2, 0x03, 0x04) ==>
                r == Thrown(SW_INCORRECT_P1P2)
      ensures pin.validated && |data| == lc as int && state != STATE_INIT
              && !Rejects(p1, p2, 0x03, 0x04) ==>
                if Data1 in files && Data2 in files then
                  r == Send(ShortBytes(|files[Data1]|) + ShortBytes(|files[Data2]|))
                else r == Thrown(SW_UNKNOWN)
    {
      if !pin.validated {
        return Thrown(SW_SECURITY_STATUS_NOT_SATISFIED);
      }
      Receive(data);
      if |data| != lc as int {
        return Thrown(SW_WRONG_LENGTH);
      }
      if state == STATE_INIT {
        return Thrown(SW_COMMAND_NOT_ALLOWED);
      }
      if Rejects(p1, p2, 0x03, 0x04) {
        return Thrown(SW_INCORRECT_P1P2);
      }
      var size1 := Size(files, Data1);
      var size2 := Size(files, Data2);
      if size1.None? || size2.None? {
        // the collaborator has no such file
        return Thrown(SW_UNKNOWN);
      }
      ArrayCopy(buf, 0, ShortBytes(size1.value));
      ArrayCopy(buf, 2, ShortBytes(size2.value));
      assert buf[..4] == ShortBytes(size1.value) + ShortBytes(size2.value);
      r := Send(buf[..4]);
    }

    /**
     * `getFileName` (INS 0x45): with the PIN validated and in the data
     * state, answers the whole name file; a name longer than the buffer
     * faults.
     */
    method GetFileName(p1: byte, p2: byte, lc: byte, data: seq<byte>) returns (r: Response)
      requires Valid() && Receivable(data)
      modifies buf
      ensures Valid()
      ensures !pin.validated ==> r == Thrown(SW_SECURITY_STATUS_NOT_SATISFIED)
      ensures pin.validated && |data| != lc as int ==> r == Thrown(SW_WRONG_LENGTH)
      ensures pin.validated && |data| == lc as int && state != STATE_SECURE_DATA ==>
                r == Thrown(SW_COMMAND_NOT_ALLOWED)
      ensures pin.validated && |data| == lc as int && state == STATE_SECURE_DATA
              && Rejects(p1, p2, 0x01, 0x01) ==>
                r == Thrown(SW_INCORRECT_P1P2)
      ensures pin.validated && |data| == lc as int && state == STATE_SECURE_DATA
              && !Rejects(p1, p2, 0x01, 0x01) ==>
                if |files[FileName]| <= buf.Length then r == Send(files[FileName])
                else r == Thrown(SW_UNKNOWN)
    {
      if !pin.validated {
        return Thrown(SW_SECURITY_STATUS_NOT_SATISFIED);
      }
      Receive(data);
      if |data| != lc as int {
        return Thrown(SW_WRONG_LENGTH);
      }
      if state == STATE_INIT || state == STATE_SECURE_NO_DATA {
        return Thrown(SW_COMMAND_NOT_ALLOWED);
      }
      if Rejects(p1, p2, 0x01, 0x01) {
        return Thrown(SW_INCORRECT_P1P2);
      }
      var length := |files[FileName]|;
      var name := Read(files, FileName, 0, length);
      assert files[FileName][0..length] == files[FileName];
      assert name == Some(files[FileName]);
      if length > buf.Length {
        // arrayCopy overruns the buffer
        return Thrown(SW_UNKNOWN);
      }
      ArrayCopy(buf, 0, name.value);
      r := Send(buf[..length]);
    }

    /**
     * `process` for a command that is not the SELECT itself (that answer
     * is part of `Select`): a class byte other than 0x80 and an unknown
     * instruction are refused without effect, and every other instruction
     * goes to its handler. Across all of them the PIN reference changes
     * only by personalisation, change or reset; the files change only
     * while the PIN is validated; only verification validates the PIN;
     * a blocked PIN is unblocked only by a reset or by personalisation;
     * the PUK and the transport key change only at personalisation.
     */
    method Process(cla: byte, ins: byte, p1: byte, p2: byte, lc: byte, data: seq<byte>, randomPuk: seq<byte>)
      returns (r: Response)
      requires Valid() && Receivable(data) && |randomPuk| == PUK_LENGTH
      modifies this, pin, puk, buf
      ensures Valid()
      ensures cla != CLA_NUMBER ==> r == Thrown(SW_CLA_NOT_SUPPORTED) && unchanged(this, pin, puk)
      ensures cla == CLA_NUMBER && ins !in Instructions() ==>
                r == Thrown(SW_INS_NOT_SUPPORTED) && unchanged(this, pin, puk)
      ensures pin.reference != old(pin.reference) ==>
                cla == CLA_NUMBER && ins in {INS_INIT, INS_CHANGE_PIN, INS_PIN_RESET}
      ensures !old(pin.validated) ==> files == old(files)
      ensures pin.validated && !old(pin.validated) ==> cla == CLA_NUMBER && ins == INS_PIN_VERIFY
      ensures old(pin.triesLeft) == 0 && pin.triesLeft != 0 ==>
                cla == CLA_NUMBER && (ins == INS_PIN_RESET || (ins == INS_INIT && old(state) == STATE_INIT))
      ensures puk.reference != old(puk.reference) || aesKey != old(aesKey) ==>
                cla == CLA_NUMBER && ins == INS_INIT && old(state) == STATE_INIT
    {
      if cla != CLA_NUMBER {
        return Thrown(SW_CLA_NOT_SUPPORTED);
      }
      if ins == INS_INIT {
        r := CardInit(p1, p2, lc, data, randomPuk);
      } else if ins == INS_PIN_VERIFY {
        r := CheckPin(p1, p2, lc, data);
      } else if ins == INS_CHANGE_PIN {
        r := ChangePin(p1, p2, lc, data);
      } else if ins == INS_PIN_RESET {
        r := ResetPin(p1, p2, lc, data);
      } else if ins == INS_CARD_RESET {
        r := CardReset(p1, p2, lc, data);
      } else if ins == INS_PW_SET {
        r := SetMasterPw(p1, p2, lc, data);
      } else if ins == INS_PW_GET {
        r := GetMasterPw(p1, p2, lc, data);
      } else if ins == INS_PW_DEL {
        r := DelMasterPw(p1, p2, lc, data);
      } else if ins == INS_CREATE_FILE {
        r := CreateFile(p1, p2, lc, data);
      } else if ins == INS_UPDATE_BINARY {
        r := WriteFile(p1, p2, lc, data);
      } else if ins == INS_READ_BINARY {
        r := ReadFile(p1, p2, lc, data);
      } else if ins == INS_DELETE_FILE {
        r := DeleteFile(p1, p2, lc, data);
      } else if ins == INS_FILE_SIZE {
        r := GetFileSize(p1, p2, lc, data);
      } else if ins == INS_GET_FILE_NAME {
        r := GetFileName(p1, p2, lc, data);
      } else {
        r := Thrown(SW_INS_NOT_SUPPORTED);
      }
    }
  }
}
