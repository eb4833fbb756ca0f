/**
 The library calls the extractors make and this model does not look inside. They are
 passed in as functions, so every property below holds for whatever they compute.
 */
module External {
  import opened Strings

  /** `unescape` is `html.unescape`; `shortHash` is the 4-byte BLAKE2s digest in hex;
      `isArabic` says whether the lingua detector, built for Arabic only, names Arabic
      as the language of a text. */
  datatype Oracles = Oracles(
    unescape: String -> String,
    shortHash: String -> String,
    isArabic: String -> bool)
}
