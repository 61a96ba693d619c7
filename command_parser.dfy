/** The structured command handed to the dispatchers, and `parseLocation`, the
    coordinate parser of util/command-parser.ts. Matching free text against the
    query patterns is done by an external NLP library and is not modelled: the
    dispatchers take its result as a `Command`. */
module CommandParser {
  import opened Wrappers
  import opened Errors
  import opened Text

  /** A parse result: the `type` tag of the matched query with the strings it
      extracts, one constructor per tag. `Other` stands for any tag not listed. */
  datatype Command =
    | AddLocation(locationLabel: string, loc: string)
    | RemoveLocationByCoords(loc: string)
    | RemoveLocationByName(locationLabel: string)
    | AddPath(from: string, to: string)
    | RemovePath(from: string, to: string)
    | ShortestPath(from: string, to: string)
    | AddRobot(name: string, location: string)
    | AddBotDest(name: string, destination: string)
    | DeleteBot(name: string)
    | Help
    | Other(tag: string)

  /** `parseLocation`: delete every parenthesis, then require exactly two maximal
      runs of digits, read as decimal naturals. */
  function ParseLocation(loc: string): Result<(nat, nat), SimError> {
    var runs := DigitRuns(RemoveParens(loc));
    if |runs| != 2 then Err(BadLocationText)
    else Ok((DecimalValue(runs[0]), DecimalValue(runs[1])))
  }

  /** Parsing fails in one way only. */
  lemma ParseLocationFailure(loc: string)
    ensures ParseLocation(loc).Err? ==> ParseLocation(loc).error == BadLocationText
  {
  }

  /** Parentheses anywhere in the text are ignored; in particular wrapping the
      text in a pair of them does not change the result. */
  lemma ParseLocationIgnoresParens(s: string)
    ensures ParseLocation("(" + s + ")") == ParseLocation(s)
  {
    RemoveParensConcat("(" + s, ")");
    RemoveParensConcat("(", s);
    assert RemoveParens("(") == [] by { assert "("[1..] == []; }
    assert RemoveParens(")") == [] by { assert ")"[1..] == []; }
    assert RemoveParens("(" + s + ")") == RemoveParens(s);
  }

  /** A character that is neither a digit nor a parenthesis only separates runs:
      a leading '-' or '+' is dropped, not read as a sign. */
  lemma ParseLocationIgnoresSeparator(c: char, s: string)
    requires !IsDigit(c) && !IsParen(c)
    ensures ParseLocation([c] + s) == ParseLocation(s)
  {
    assert RemoveParens([c] + s) == [c] + RemoveParens(s) by {
      assert ([c] + s)[0] == c && ([c] + s)[1..] == s;
    }
    DigitRunsSkip(c, RemoveParens(s));
  }

  /** Two runs of digits joined by a comma parse as their decimal values. */
  lemma ParseLocationOfPair(sx: string, sy: string)
    requires sx != [] && AllDigits(sx) && sy != [] && AllDigits(sy)
    ensures ParseLocation(sx + "," + sy) == Ok((DecimalValue(sx), DecimalValue(sy)))
  {
    var s := sx + "," + sy;
    assert s == sx + [','] + sy;
    forall i | 0 <= i < |s|
      ensures !IsParen(s[i])
    {
      if i < |sx| {
        assert s[i] == sx[i];
      } else if i > |sx| {
        assert s[i] == sy[i - |sx| - 1];
      }
    }
    RemoveParensNone(s);
    DigitRunsSplit(sx, ',', sy);
    DigitRunsWhole(sy);
  }

  /** Printing two naturals as "x,y" (with or without parentheses) and parsing
      the text gives them back. */
  lemma ParseLocationRoundTrip(x: nat, y: nat)
    ensures ParseLocation(NatToString(x) + "," + NatToString(y)) == Ok((x, y))
    ensures ParseLocation("(" + NatToString(x) + "," + NatToString(y) + ")") == Ok((x, y))
  {
    var sx, sy := NatToString(x), NatToString(y);
    ParseLocationOfPair(sx, sy);
    DecimalRoundTrip(x);
    DecimalRoundTrip(y);
    ParseLocationIgnoresParens(sx + "," + sy);
    assert "(" + sx + "," + sy + ")" == "(" + (sx + "," + sy) + ")";
  }

  /** A minus sign is a separator: "-5,3" reads as (5, 3). */
  lemma ParseLocationDropsSign()
    ensures ParseLocation("-5,3") == Ok((5, 3))
  {
    ParseLocationIgnoresSeparator('-', "5,3");
    assert "-5,3" == ['-'] + "5,3";
    ParseLocationOfPair("5", "3");
    assert "5" + "," + "3" == "5,3";
  }

  /** A decimal point is a separator too, so "1.5,2" has three runs and fails. */
  lemma ParseLocationRejectsFraction()
    ensures ParseLocation("1.5,2") == Err(BadLocationText)
  {
    RemoveParensNone("1.5,2");
    DigitRunsSplit("1", '.', "5,2");
    DigitRunsSplit("5", ',', "2");
    DigitRunsWhole("2");
    assert "1.5,2" == "1" + ['.'] + "5,2";
    assert "5,2" == "5" + [','] + "2";
  }
}
