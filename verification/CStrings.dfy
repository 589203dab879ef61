/** Text that ends in a NUL, which may be read. */
module CStrings {
  function At(t: string, i: nat): char {
    if i < |t| then t[i] else '\0'
  }

  predicate IsDigit(c: char) {
    '0' <= c <= '9'
  }
}
