/** C strings: the characters before the terminator. */
module CStrings {

  type CString = s: string | '\0' !in s

  /** The character at a position; the terminator follows the last one. */
  function CharAt(s: CString, i: nat): char {
    if i < |s| then s[i] else '\0'
  }
}
