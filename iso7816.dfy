/**
 * Status words (ISO/IEC 7816-4, section 5.1.3 of the 2005 edition, status
 * bytes SW1-SW2) as the Java Card `ISO7816` interface and the applet name
 * them, and the outcome of one command.
 */
module Iso7816 {
  import opened Bytes

  type StatusWord = bv16

  const SW_NO_ERROR: StatusWord := 0x9000
  const SW_WRONG_LENGTH: StatusWord := 0x6700
  const SW_SECURITY_STATUS_NOT_SATISFIED: StatusWord := 0x6982
  const SW_CONDITIONS_NOT_SATISFIED: StatusWord := 0x6985
  const SW_COMMAND_NOT_ALLOWED: StatusWord := 0x6986
  const SW_INCORRECT_P1P2: StatusWord := 0x6A86
  const SW_INS_NOT_SUPPORTED: StatusWord := 0x6D00
  const SW_CLA_NOT_SUPPORTED: StatusWord := 0x6E00
  /** What the runtime answers when an exception other than `ISOException` escapes. */
  const SW_UNKNOWN: StatusWord := 0x6F00

  // The applet's own status words.
  const SW_PIN_TRIES_REMAINING: StatusWord := 0x63C0
  const SW_CARD_LOCKED: StatusWord := 0x6250
  const SW_PUK_CORRECT: StatusWord := 0x9090

  /**
   * The outcome of a command: response data sent with 0x9000, or the
   * status word of the `ISOException` (or runtime fault) that ended it.
   */
  datatype Response = Send(data: seq<byte>) | Thrown(sw: StatusWord)

  /** `(short)(SW_PIN_TRIES_REMAINING | tries)`: the count travels in the low nibble. */
  function TriesSw(tries: nat): (sw: StatusWord)
    requires tries < 16
    ensures sw & 0xFFF0 == SW_PIN_TRIES_REMAINING
    ensures (sw & 0x000F) as nat == tries
  {
    SW_PIN_TRIES_REMAINING | tries as bv16
  }
}
