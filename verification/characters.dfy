/** Characters as code points. */
module Characters {

  predicate IsDigit(c: int) {
    '0' as int <= c <= '9' as int
  }
}
