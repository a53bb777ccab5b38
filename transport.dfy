/**
 * The transport framing around the applet's AES-256 ECB cipher. The cipher
 * and the SHA-256 key derivation are not modelled: they are opaque
 * functions carried in a `Crypto` value, and the only thing ever assumed of
 * them (as the `InversePair` hypothesis of a lemma) is that decryption
 * undoes encryption under one key.
 *
 * Two payload conventions coexist:
 *  - sentinel trim: in a decrypted 16-byte block, the payload is the suffix
 *    that starts at the first byte different from 0xFF;
 *  - length prefix: in a 48-byte block, byte 0 holds the length L and the
 *    payload is the last L bytes.
 */
module Transport {
  import opened Bytes
  import opened Optional

  const BLOCK_SIZE: nat := 16
  const KEY_SIZE: nat := 32
  const PW_BLOCK_SIZE: nat := 48
  const SENTINEL: byte := 0xFF

  type Block = s: seq<byte> | |s| == BLOCK_SIZE witness Zeros(BLOCK_SIZE)
  type Key = s: seq<byte> | |s| == KEY_SIZE witness Zeros(KEY_SIZE)

  /** The card's cryptographic services, as opaque functions. */
  datatype Crypto = Crypto(
    sha256: seq<byte> -> Key,
    encrypt: (Key, Block) -> Block,
    decrypt: (Key, Block) -> Block)

  /** Decryption undoes encryption under every key. */
  ghost predicate InversePair(c: Crypto) {
    forall k: Key, b: Block :: c.decrypt(k, c.encrypt(k, b)) == b
  }

  /**
   * A block cipher applied in electronic-codebook mode without padding:
   * block by block, and refused (`CryptoException.ILLEGAL_USE`) when the
   * input is not block aligned.
   */
  function Ecb(f: (Key, Block) -> Block, k: Key, data: seq<byte>): (r: Option<seq<byte>>)
    ensures r.Some? <==> |data| % BLOCK_SIZE == 0
    ensures r.Some? ==> |r.value| == |data|
    ensures r.Some? && |data| > 0 ==> r.value[..BLOCK_SIZE] == f(k, data[..BLOCK_SIZE])
    decreases |data|
  {
    if |data| % BLOCK_SIZE != 0 then None
    else if |data| == 0 then Some([])
    else Some(f(k, data[..BLOCK_SIZE]) + Ecb(f, k, data[BLOCK_SIZE..]).value)
  }

  /** ECB is block by block: block `i` of the output is the cipher applied to block `i` of the input. */
  lemma {:induction false} EcbBlock(f: (Key, Block) -> Block, k: Key, data: seq<byte>, i: nat)
    requires |data| % BLOCK_SIZE == 0 && i < |data| / BLOCK_SIZE
    ensures Ecb(f, k, data).Some?
    ensures Ecb(f, k, data).value[i * BLOCK_SIZE..i * BLOCK_SIZE + BLOCK_SIZE]
            == f(k, data[i * BLOCK_SIZE..i * BLOCK_SIZE + BLOCK_SIZE])
  {
    if i > 0 {
      var rest := data[BLOCK_SIZE..];
      EcbBlock(f, k, rest, i - 1);
      var j := (i - 1) * BLOCK_SIZE;
      assert j + BLOCK_SIZE == i * BLOCK_SIZE;
      assert rest[j..j + BLOCK_SIZE] == data[i * BLOCK_SIZE..i * BLOCK_SIZE + BLOCK_SIZE];
    }
  }

  /** `decryptData(data, len)` of the applet. */
  function EcbDecrypt(c: Crypto, k: Key, data: seq<byte>): (r: Option<seq<byte>>)
    ensures r.Some? <==> |data| % BLOCK_SIZE == 0
    ensures r.Some? ==> |r.value| == |data|
    ensures r.Some? && |data| > 0 ==> r.value[..BLOCK_SIZE] == c.decrypt(k, data[..BLOCK_SIZE])
  {
    Ecb(c.decrypt, k, data)
  }

  /** `encryptData(data, len)` of the applet. */
  function EcbEncrypt(c: Crypto, k: Key, data: seq<byte>): (r: Option<seq<byte>>)
    ensures r.Some? <==> |data| % BLOCK_SIZE == 0
    ensures r.Some? ==> |r.value| == |data|
    ensures r.Some? && |data| > 0 ==> r.value[..BLOCK_SIZE] == c.encrypt(k, data[..BLOCK_SIZE])
  {
    Ecb(c.encrypt, k, data)
  }

  /** ECB decryption undoes ECB encryption when the block cipher is an inverse pair. */
  lemma {:induction false} EcbRoundTrip(c: Crypto, k: Key, data: seq<byte>)
    requires InversePair(c)
    requires |data| % BLOCK_SIZE == 0
    ensures EcbDecrypt(c, k, EcbEncrypt(c, k, data).value) == Some(data)
    decreases |data|
  {
    if |data| > 0 {
      var ct := EcbEncrypt(c, k, data).value;
      var first: Block := data[..BLOCK_SIZE];
      EcbRoundTrip(c, k, data[BLOCK_SIZE..]);
      assert ct == c.encrypt(k, first) + EcbEncrypt(c, k, data[BLOCK_SIZE..]).value;
      assert ct[..BLOCK_SIZE] == c.encrypt(k, first);
      assert ct[BLOCK_SIZE..] == EcbEncrypt(c, k, data[BLOCK_SIZE..]).value;
      assert c.decrypt(k, c.encrypt(k, first)) == first;
      assert data == first + data[BLOCK_SIZE..];
    }
  }

  // ---------------------------------------------------------------------
  // Sentinel-trimmed blocks

  /**
   * The payload of a sentinel-padded block: the suffix from the first byte
   * that is not 0xFF. An all-0xFF block has none.
   */
  function SentinelPayload(block: seq<byte>): (r: Option<seq<byte>>)
    ensures r.None? <==> forall i | 0 <= i < |block| :: block[i] == SENTINEL
    ensures r.Some? ==> 1 <= |r.value| <= |block|
    ensures r.Some? ==> r.value == block[|block| - |r.value|..] && r.value[0] != SENTINEL
    ensures r.Some? ==> forall i | 0 <= i < |block| - |r.value| :: block[i] == SENTINEL
  {
    if |block| == 0 then None
    else if block[0] != SENTINEL then Some(block)
    else
      var rest := SentinelPayload(block[1..]);
      assert forall i | 1 <= i < |block| :: block[i] == block[1..][i - 1];
      rest
  }

  /** The sender's side: `p` right-aligned in `n` bytes behind 0xFF fillers. */
  function SentinelPad(p: seq<byte>, n: nat): (b: seq<byte>)
    requires |p| <= n
    ensures |b| == n && b[n - |p|..] == p
  {
    seq(n - |p|, _ => SENTINEL) + p
  }

  /**
   * Sentinel trim recovers every payload of 1..n bytes whose first byte is
   * not the sentinel; nothing else can be recovered.
   */
  lemma {:induction false} SentinelRoundTrip(p: seq<byte>, n: nat)
    requires 1 <= |p| <= n
    ensures SentinelPayload(SentinelPad(p, n)) == Some(p) <==> p[0] != SENTINEL
    decreases n
  {
    var b := SentinelPad(p, n);
    if n > |p| {
      assert b[0] == SENTINEL;
      assert b[1..] == SentinelPad(p, n - 1);
      SentinelRoundTrip(p, n - 1);
    } else {
      assert b == p;
    }
  }

  /** Trimming then re-padding gives back the block: the decode loses only fillers. */
  lemma SentinelPayloadRebuilds(block: seq<byte>)
    requires SentinelPayload(block).Some?
    ensures SentinelPad(SentinelPayload(block).value, |block|) == block
  {
    var p := SentinelPayload(block).value;
    var b := SentinelPad(p, |block|);
    forall i | 0 <= i < |block| ensures b[i] == block[i] {
      if i >= |block| - |p| {
        assert b[i] == b[|block| - |p|..][i - (|block| - |p|)];
      }
    }
  }

  /**
   * The scan loop of the applet: the index of the first byte of the
   * block's first 16 that is not 0xFF, if there is one.
   */
  method FindPayloadStart(block: seq<byte>) returns (found: bool, start: nat)
    requires |block| >= BLOCK_SIZE
    ensures found ==> start < BLOCK_SIZE && block[start] != SENTINEL
    ensures forall j | 0 <= j < (if found then start else BLOCK_SIZE) :: block[j] == SENTINEL
    ensures found <==> SentinelPayload(block[..BLOCK_SIZE]).Some?
    ensures found ==> SentinelPayload(block[..BLOCK_SIZE]) == Some(block[start..BLOCK_SIZE])
  {
    found, start := false, 0;
    var i := 0;
    while i < BLOCK_SIZE
      invariant 0 <= i <= BLOCK_SIZE
      invariant forall j | 0 <= j < i :: block[j] == SENTINEL
    {
      if block[i] != SENTINEL {
        found, start := true, i;
        break;
      }
      i := i + 1;
    }
    ghost var b := block[..BLOCK_SIZE];
    ghost var r := SentinelPayload(b);
    if found {
      assert b[start] != SENTINEL;
      assert BLOCK_SIZE - |r.value| == start;
    }
  }

  // ---------------------------------------------------------------------
  // Length-prefixed 48-byte blocks (the master password)

  /**
   * The block the encrypted master-password read builds: zeros, the length
   * in byte 0, then the password copied to offset 48 - L (for L = 48 the
   * copy overwrites byte 0).
   */
  function PwBlockEncode(pw: seq<byte>): (b: seq<byte>)
    requires |pw| <= PW_BLOCK_SIZE
    ensures |b| == PW_BLOCK_SIZE && b[PW_BLOCK_SIZE - |pw|..] == pw
    ensures |pw| < PW_BLOCK_SIZE ==> b[0] == |pw| as byte
    ensures forall i | 1 <= i < PW_BLOCK_SIZE - |pw| :: b[i] == 0
  {
    Splice(Zeros(PW_BLOCK_SIZE)[0 := |pw| as byte], PW_BLOCK_SIZE - |pw|, pw)
  }

  /**
   * The encrypted master-password write's decode: L is byte 0 read as a
   * signed Java byte; the copy from offset 48 - L of L bytes fails for a
   * negative L or for L above 48.
   */
  function PwBlockDecode(block: seq<byte>): (r: Option<seq<byte>>)
    requires |block| == PW_BLOCK_SIZE
    ensures r.Some? <==> 0 <= Signed(block[0]) <= PW_BLOCK_SIZE
    ensures r.Some? ==> |r.value| == Signed(block[0]) && r.value == block[PW_BLOCK_SIZE - |r.value|..]
  {
    var len := Signed(block[0]);
    if len < 0 || len > PW_BLOCK_SIZE as int then None
    else Some(block[PW_BLOCK_SIZE - len..])
  }

  /** Decoding inverts encoding for every password of at most 47 bytes. */
  lemma PwBlockRoundTrip(pw: seq<byte>)
    requires |pw| < PW_BLOCK_SIZE
    ensures PwBlockDecode(PwBlockEncode(pw)) == Some(pw)
  {
    var b := PwBlockEncode(pw);
    assert Signed(b[0]) == |pw|;
  }

  /**
   * A 48-byte password fills the whole block, so its first byte overwrites
   * the length byte: it survives exactly when that byte is 48 (0x30).
   */
  lemma {:induction false} PwBlockFullLength(pw: seq<byte>)
    requires |pw| == PW_BLOCK_SIZE
    ensures PwBlockDecode(PwBlockEncode(pw)) == Some(pw) <==> pw[0] == 48
  {
    var b := PwBlockEncode(pw);
    assert b == b[PW_BLOCK_SIZE - |pw|..] == pw;
    var r := PwBlockDecode(b);
    if r == Some(pw) {
      assert Signed(b[0]) == |pw|;
    }
  }

  /**
   * End to end: the ciphertext the encrypted read sends, decrypted and
   * decoded as the encrypted write does, is the stored password.
   */
  lemma MasterPasswordTransportRoundTrip(c: Crypto, k: Key, pw: seq<byte>)
    requires InversePair(c)
    requires |pw| < PW_BLOCK_SIZE
    ensures var ct := EcbEncrypt(c, k, PwBlockEncode(pw));
            ct.Some? && |ct.value| == PW_BLOCK_SIZE &&
            PwBlockDecode(EcbDecrypt(c, k, ct.value).value) == Some(pw)
  {
    EcbRoundTrip(c, k, PwBlockEncode(pw));
    PwBlockRoundTrip(pw);
  }
}
