/** `parseLocation` of util/parser.ts, the older copy of the coordinate parser. */
module Parser {
  import opened Wrappers
  import opened Errors
  import opened Text
  import CommandParser

  /** `parseLocation`: delete every parenthesis, then require exactly two maximal
      runs of digits, read as decimal naturals. */
  function ParseLocation(loc: string): Result<(nat, nat), SimError> {
    var cleaned := RemoveParens(loc);
    var extracted := DigitRuns(cleaned);
    if |extracted| != 2 then Err(BadLocationText)
    else Ok((DecimalValue(extracted[0]), DecimalValue(extracted[1])))
  }

  /** Both copies of the parser give the same result on every input. The two
      source functions (util/parser.ts:74-82 and util/command-parser.ts:93-101)
      are the same text, so this lemma records that the older copy has no
      difference to look for, rather than proving anything deep. */
  lemma SameAsCommandParser(loc: string)
    ensures ParseLocation(loc) == CommandParser.ParseLocation(loc)
  {
  }

  /** Wrapping the text in parentheses does not change the result. */
  lemma ParseLocationIgnoresParens(s: string)
    ensures ParseLocation("(" + s + ")") == ParseLocation(s)
  {
    CommandParser.ParseLocationIgnoresParens(s);
  }

  /** Printing two naturals as "x,y" and parsing the text gives them back. */
  lemma ParseLocationRoundTrip(x: nat, y: nat)
    ensures ParseLocation(NatToString(x) + "," + NatToString(y)) == Ok((x, y))
  {
    CommandParser.ParseLocationRoundTrip(x, y);
  }
}
