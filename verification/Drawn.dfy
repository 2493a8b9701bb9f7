/** What GitHub's reading of a line answers, and what of the line it rests on. */
module Drawn {
  import opened Text

  /** Everything the opening of a line can be made of. */
  predicate OpeningChar(c: char) {
    c == ' ' || c == '\t' || c == '>' || c == '*' || c == '+' || c == '.' || c == ')' || Digit(c) || c == '-'
  }

  predicate Hash(c: char) { c == '#' }

  /** A heading as GitHub found it: the opening as written, then `words`, which open on the hashes. */
  datatype Heading = Heading(lead: string, hashes: nat, words: string, quotes: nat, inAnItem: bool)
  {
    /** One to six hashes, then nothing or a space or a tab: what the pattern for a heading takes. */
    predicate Valid() {
      && (forall c <- lead :: OpeningChar(c))
      && HeadingAt(words, hashes)
    }

    /** Whether Discord has a heading to draw it as: in no item, and at most one quote deep. */
    predicate OnTop() { !inAnItem && quotes <= 1 }
  }

  predicate HeadingAt(words: string, hashes: nat) {
    && 1 <= hashes <= 6 && hashes <= |words|
    && (forall i :: 0 <= i < hashes ==> words[i] == '#')
    && (hashes < |words| ==> Blank(words[hashes]))
  }

  datatype Drawn = AsCode | AsWords | AHeading(heading: Heading)
}
