/**
 * The command-line message formatter: a level tag in bold and colour,
 * followed by the message, built from ANSI escape sequences.
 */
module Formatting {

  const Bold: string := "\U{1b}[1m"
  const Reset: string := "\U{1b}[0m"
  const Red: string := "\U{1b}[31m"
  const Green: string := "\U{1b}[32m"
  const Yellow: string := "\U{1b}[33m"

  /** The three levels the formatter knows. */
  predicate IsLevel(level: string) {
    level == "info" || level == "error" || level == "warning"
  }

  /** The colour a known level is shown in. */
  function ColourOf(level: string): string
    requires IsLevel(level)
  {
    if level == "info" then Green else if level == "error" then Red else Yellow
  }

  /**
   * The text `fprint` builds: it starts from the empty string and each of the
   * three level tests may replace it.
   */
  function Format(level: string, message: string): (output: string)
    ensures output == "" <==> !IsLevel(level)
    ensures IsLevel(level) ==>
      output == "[" + Bold + ColourOf(level) + level + Reset + "] " + message
  {
    var output := "";
    var output := if level == "info" then "[" + Bold + Green + "info" + Reset + "] " + message else output;
    var output := if level == "error" then "[" + Bold + Red + "error" + Reset + "] " + message else output;
    var output := if level == "warning" then "[" + Bold + Yellow + "warning" + Reset + "] " + message else output;
    output
  }

  /** For a known level the message is the end of the output, unaltered. */
  lemma EndsWithMessage(level: string, message: string)
    requires IsLevel(level)
    ensures |Format(level, message)| >= |message|
    ensures Format(level, message)[|Format(level, message)| - |message|..] == message
  {
    var prefix := "[" + Bold + ColourOf(level) + level + Reset + "] ";
    assert Format(level, message) == prefix + message;
    assert (prefix + message)[|prefix|..] == message;
  }

  /** For the three known levels, different levels or different messages never give the same line. */
  lemma {:induction false} FormatIsInjective(l1: string, m1: string, l2: string, m2: string)
    requires IsLevel(l1) && IsLevel(l2)
    requires Format(l1, m1) == Format(l2, m2)
    ensures l1 == l2 && m1 == m2
  {
    var p1 := "[" + Bold + ColourOf(l1) + l1 + Reset + "] ";
    var p2 := "[" + Bold + ColourOf(l2) + l2 + Reset + "] ";
    var s := Format(l1, m1);
    assert s == p1 + m1 && s == p2 + m2;
    // the third digit of the colour code tells the levels apart
    assert s[8] == p1[8] == ColourOf(l1)[3];
    assert s[8] == p2[8] == ColourOf(l2)[3];
    assert l1 == l2;
    assert s[|p1|..] == m1 && s[|p2|..] == m2;
  }

  /** Standard output, as the list of lines printed so far. */
  class Terminal {
    var lines: seq<string>

    constructor ()
      ensures lines == []
    {
      lines := [];
    }

    /** `fprint`: prints the formatted line and returns that same text. */
    method Fprint(level: string, message: string) returns (output: string)
      modifies this
      ensures output == Format(level, message)
      ensures lines == old(lines) + [output]
    {
      output := Format(level, message);
      lines := lines + [output];
    }
  }
}
