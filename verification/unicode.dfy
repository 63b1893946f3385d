/** The Unicode facts the pipeline borrows from Python: the regular-expression
    classes `\s` and `\w` (which agree with `str.isspace` and with
    `str.isalnum() or '_'`), and `str.lower()`. They are parameters of the model
    rather than tables; `Valid` lists the only facts about them the proofs use. */
module Unicode {

  /** `lower` maps whole strings because Python's lowercasing is not
      character-by-character (final sigma, and 'İ' becoming two characters). */
  datatype CharClasses = CharClasses(
    isSpace: char -> bool,
    isWord: char -> bool,
    lower: string -> string)

  predicate Valid(u: CharClasses) {
    && u.isSpace(' ')
    && !u.isSpace('-') && !u.isWord('-')
    && !u.isWord('/')
    && (forall c :: u.isSpace(c) ==> !u.isWord(c))
  }

  /** ASCII whitespace as `str.isspace` sees it: tab through carriage return,
      the four information separators, and the space. */
  predicate AsciiSpace(c: char) {
    c == ' ' || 9 <= c as int <= 13 || 28 <= c as int <= 31
  }

  predicate AsciiWord(c: char) {
    'a' <= c <= 'z' || 'A' <= c <= 'Z' || '0' <= c <= '9' || c == '_'
  }

  function AsciiLowerChar(c: char): char {
    if 'A' <= c <= 'Z' then (c as int + 32) as char else c
  }

  function AsciiLower(s: string): (r: string)
    ensures |r| == |s|
    ensures forall i :: 0 <= i < |s| ==> r[i] == AsciiLowerChar(s[i])
  {
    seq(|s|, i requires 0 <= i < |s| => AsciiLowerChar(s[i]))
  }

  /** Python's classes restricted to ASCII text, enough to evaluate examples. */
  const Ascii: CharClasses := CharClasses(AsciiSpace, AsciiWord, AsciiLower)

  lemma AsciiValid()
    ensures Valid(Ascii)
  {
  }
}
