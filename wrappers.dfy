// Failure-carrying results shared by every module of the model.
module Wrappers {

  /** The error conditions the toolkit raises, one constructor per distinct failure. */
  datatype Error =
    | SlotOutOfRange                              // slot index outside 0..5
    | SizeMismatch(key: string, expected: int, got: int)
    | NegativeByteCount                          // bytes(n) with n < 0
    | NotAnInteger                               // int(value) finds no decimal number in a byte string
    | ShortRead                                  // decoding indexes past the bytes read
    | AddressOutOfRange(addr: int, size: int)    // the emulator rejects the access
    | UnknownKey(key: string)                    // catalog lookup of a missing key
    | NegativeBank
    | BankZeroAddrOutOfRange
    | BankedAddrOutOfRange
    | MissingFileRange(key: string)
    | MissingBankAddr(key: string)
    | MalformedHex                               // int(text, 16) / bytes.fromhex reject the text
    | OddHexLength
    | ByteOutOfRange                             // bytes(...) given a value above 0xFF
    | MissingDash                                // "START-END" without a dash
    | PartyFull
    | PartyEmpty                                 // deleting from an empty party
    | SlotEmpty                                  // deleting a slot at or past the count
    | SpeciesIndexError                          // a party count above six indexes past the species list
    | ItemIdOutOfRange                           // an item id outside 1..255

  datatype Result<+T> = Ok(value: T) | Err(error: Error) {
    predicate IsFailure() { Err? }

    function PropagateFailure<U>(): Result<U>
      requires Err?
    {
      Err(error)
    }

    function Extract(): T
      requires Ok?
    {
      value
    }
  }

  datatype Option<+T> = None | Some(value: T)
}
