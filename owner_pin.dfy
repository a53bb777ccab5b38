/**
 * A retry-limited secret with the behaviour the Java Card API documents for
 * `javacard.framework.OwnerPIN`: a reference value, a try counter and a
 * session-scoped `validated` flag.
 */
module OwnerPins {
  import opened Bytes

  class OwnerPin {
    const tryLimit: nat
    const maxPinSize: nat
    var reference: seq<byte>
    var triesLeft: nat
    var validated: bool

    /** The counter never exceeds the limit, and a validated secret has a full counter. */
    ghost predicate Valid()
      reads this
    {
      && 1 <= tryLimit
      && triesLeft <= tryLimit
      && |reference| <= maxPinSize
      && (validated ==> triesLeft == tryLimit)
    }

    /**
     * What `check(candidate)` does: on a blocked secret (no tries left) it
     * fails without comparing; otherwise a match validates and refills the
     * counter, a mismatch costs one try. The reference never changes, and
     * the flag ends up true exactly on a match.
     */
    twostate predicate CheckedAgainst(candidate: seq<byte>)
      reads this
      ensures CheckedAgainst(candidate) && old(triesLeft) == 0 ==> !validated && triesLeft == 0
      ensures CheckedAgainst(candidate) && !validated && old(triesLeft) > 0 ==> triesLeft == old(triesLeft) - 1
      ensures CheckedAgainst(candidate) && validated ==> candidate == reference && triesLeft == tryLimit
    {
      && reference == old(reference)
      && validated == (old(triesLeft) > 0 && candidate == old(reference))
      && triesLeft == (if validated then tryLimit
                       else if old(triesLeft) == 0 then 0
                       else old(triesLeft) - 1)
    }

    /** `new OwnerPIN(tryLimit, maxPINSize)`: an all-zero reference and a full counter. */
    constructor (tryLimit: nat, maxPinSize: nat)
      requires 1 <= tryLimit && 1 <= maxPinSize
      ensures Valid()
      ensures this.tryLimit == tryLimit && this.maxPinSize == maxPinSize
      ensures reference == Zeros(maxPinSize) && triesLeft == tryLimit && !validated
    {
      this.tryLimit := tryLimit;
      this.maxPinSize := maxPinSize;
      reference := Zeros(maxPinSize);
      triesLeft := tryLimit;
      validated := false;
    }

    /** `update(pin, offset, length)`: a new reference, a full counter, the flag cleared. */
    method Update(newPin: seq<byte>)
      requires Valid() && |newPin| <= maxPinSize
      modifies this
      ensures Valid()
      ensures reference == newPin && triesLeft == tryLimit && !validated
    {
      reference := newPin;
      triesLeft := tryLimit;
      validated := false;
    }

    /** `check(pin, offset, length)`. */
    method Check(candidate: seq<byte>) returns (ok: bool)
      requires Valid()
      modifies this
      ensures Valid() && CheckedAgainst(candidate)
      ensures ok == validated
    {
      validated := false;
      if triesLeft == 0 {
        return false;
      }
      triesLeft := triesLeft - 1;
      if candidate == reference {
        triesLeft := tryLimit;
        validated := true;
      }
      ok := validated;
    }

    /**
     * `reset()`: when validated, clears the flag and refills the counter;
     * otherwise does nothing. Because a validated secret already has a full
     * counter, the counter never changes.
     */
    method Reset()
      requires Valid()
      modifies this
      ensures Valid()
      ensures !validated && triesLeft == old(triesLeft) && reference == old(reference)
    {
      if validated {
        validated := false;
        triesLeft := tryLimit;
      }
    }

    /** `resetAndUnblock()`: clears the flag and refills the counter. */
    method ResetAndUnblock()
      requires Valid()
      modifies this
      ensures Valid()
      ensures !validated && triesLeft == tryLimit && reference == old(reference)
    {
      validated := false;
      triesLeft := tryLimit;
    }

    /** `getTriesRemaining()`. */
    function GetTriesRemaining(): (n: nat)
      requires Valid()
      reads this
      ensures n == triesLeft
      ensures n <= tryLimit
      ensures validated ==> n == tryLimit
    {
      triesLeft
    }
  }
}
