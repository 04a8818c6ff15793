/** The decision the interactive loop of `main` takes on each input line,
    separated from the console I/O around it. */
module Repl {
  import opened Text

  /** Stop the loop, prompt again, or answer the (stripped) question. */
  datatype Command = Exit | Skip | Ask(query: string)

  /** A line is stripped; `exit` or `quit` in any letter case stops the loop,
      an empty line re-prompts, and anything else is asked as it stands. */
  function Classify(line: string): (c: Command)
    ensures c.Exit? <==> Lower(Strip(line)) == "exit" || Lower(Strip(line)) == "quit"
    ensures c.Skip? <==> Strip(line) == ""
    ensures c.Ask? ==> c.query == Strip(line)
  {
    var query := Strip(line);
    if Lower(query) == "exit" || Lower(query) == "quit" then Exit
    else if query == "" then Skip
    else Ask(query)
  }

  /** A question handed on is never empty, never padded, and never a stop word. */
  lemma AskedQuestion(line: string)
    requires Classify(line).Ask?
    ensures var q := Classify(line).query;
      q != "" && !IsSpace(q[0]) && !IsSpace(q[|q| - 1])
      && Lower(q) != "exit" && Lower(q) != "quit"
  {
  }

  /** Stripping first changes no decision: the loop already strips the line. */
  lemma ClassifyStripped(line: string)
    ensures Classify(Strip(line)) == Classify(line)
  {
    StripIdempotent(line);
  }

  /** `exit` and `quit` stop the loop whatever their letter case and padding. */
  lemma StopWordsAnyCase(left: string, word: string, right: string)
    requires AllSpace(left) && AllSpace(right)
    requires Lower(word) == "exit" || Lower(word) == "quit"
    ensures Classify(left + word + right) == Exit
  {
    assert !IsSpace(Lower(word)[0]) && !IsSpace(Lower(word)[3]);
    StripPadding(left, word, right);
  }

  /** A line of whitespace only is skipped. */
  lemma BlankLineSkipped(line: string)
    requires AllSpace(line)
    ensures Classify(line) == Skip
  {
    StripLeftPadding(line, "");
    assert line + "" == line;
  }
}
