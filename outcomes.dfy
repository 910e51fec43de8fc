/**
 * The fatal conditions of the decoder and of the tweak pass. The C programs
 * print a diagnostic and call exit(1); here every fallible operation returns
 * one of these instead.
 */
module Outcomes {

  datatype Fault =
    | InnerBlank(frames: nat, index: nat)              // blank frames inside word number `index`
    | ChecksumMismatch(expected: nat, calculated: nat)  // block checksum word differs from the fold
    | InvalidArticulation(code: nat)                    // articulation code outside {0, 1, 2, 4, 8}
    | EofInNotes                                        // the tape ends inside a Notes block
    | NoGapBeforeBars                                   // Bars count word not preceded by blank frames
    | EarlyBarsEnd                                      // 0600000 before the last Bars content word
    | IndexOutOfRange(index: nat)                       // Bars word >= notes_count
    | BufferOverrun                                     // access outside the 8192-entry notes buffer
    | EmptyTape                                         // tweak: no word at all on the tape
    | MissingBars                                       // tweak: no word after a Notes block
    | TrailingData                                      // tweak: a word after the last voice
    | Usage                                             // tweak: wrong number of arguments

  datatype Result<T> = Ok(value: T) | Err(fault: Fault)

  datatype Option<T> = None | Some(value: T)
}
