// The library's error exits, as results.
module Errors {

  datatype Error =
    | BadHuffTable       // JERR_BAD_HUFF_TABLE
    | HuffMissingCode    // JERR_HUFF_MISSING_CODE
    | HuffClenOverflow   // JERR_HUFF_CLEN_OVERFLOW
    | BadDctCoef         // JERR_BAD_DCT_COEF
    | CantSuspend        // JERR_CANT_SUSPEND
    | BadScanScript      // JERR_BAD_SCAN_SCRIPT
    | BadProgScript      // JERR_BAD_PROG_SCRIPT
    | ComponentCount     // JERR_COMPONENT_COUNT
    | MissingData        // JERR_MISSING_DATA

  datatype Result<+T> = Ok(value: T) | Err(error: Error)
}
