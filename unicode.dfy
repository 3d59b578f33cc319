/**
 * The Unicode services the word counter borrows from the JavaScript host.
 * The character classes and the two string mappings are left uninterpreted:
 * every operation of the model takes them as a parameter, so each property
 * proved here holds for whatever tables the host ships.
 */
module Unicode {

  datatype Tables = Tables(
    isSpace: char -> bool,        // membership in the regular-expression class \s
    isLetter: char -> bool,       // membership in the property class \p{L}
    nfc: string -> string,        // String.prototype.normalize("NFC")
    lowerEnUS: string -> string)  // String.prototype.toLocaleLowerCase("en-US")

  /** A fragment is a word when some character of it is a letter (`/\p{L}/u.test`). */
  predicate HasLetter(u: Tables, w: string)
  {
    exists i :: 0 <= i < |w| && u.isLetter(w[i])
  }

  /** Canonical composition first, then lower case under the fixed American English locale. */
  function NormalizeWord(u: Tables, w: string): string
  {
    u.lowerEnUS(u.nfc(w))
  }
}
