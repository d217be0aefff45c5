/** Notions of JavaScript that several scripts use. */
module JavaScript {
  /** `Number.MAX_SAFE_INTEGER`. */
  const MAX_SAFE_INTEGER := 9007199254740991

  /** How many elements an array holds at most. */
  const MAX_ARRAY_LENGTH := 4294967295

  /** `s.startsWith(t, i)`. */
  predicate StandsAt(t: string, s: string, i: nat) {
    i + |t| <= |s| && s[i..i + |t|] == t
  }
}
