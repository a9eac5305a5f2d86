/** What several parts of the models share. */
module Basics {
  datatype Option<T> = None | Some(value: T)

  /** White space as `isspace` sees it. */
  predicate IsSpace(c: char) { c == ' ' || '\t' <= c <= '\r' }

  /** Tab, line feed, vertical tab, form feed, carriage return and blank. */
  predicate WhiteSpace(c: char) { c as int in {9, 10, 11, 12, 13, 32} }

  lemma IsSpaceExactly(c: char)
    ensures IsSpace(c) <==> WhiteSpace(c)
  {
  }
}
