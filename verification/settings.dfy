/** Tunable limits of the pipeline. */
module Settings {

  /** Largest number of words a keyword may have. */
  const MaxKeywordWords: nat := 6
}
