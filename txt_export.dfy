/** What both versions' ".txt" export has in common: the two rule lines and
    the shape of what ends up in the file. */
module TxtExport {
  import opened PyText

  /** The text written to the export file, and whether the export loop was
      cut short by an exception (reported as an export error after the
      partial text is already in the file). */
  datatype TxtOutput = TxtOutput(text: string, failed: bool)

  /** `"-" * 20` */
  const Dashes: string := "--------------------"

  /** `"=" * 20` */
  const Equals: string := "===================="

  /** The two rule lines are Python's `"-" * 20` and `"=" * 20`. */
  lemma RulesAreRepeats()
    ensures Dashes == Repeat('-', 20) && Equals == Repeat('=', 20)
  {
  }

  /** The export text of `rest` written after `done`, as the loop leaves the
      file when `done` was written without failure. */
  function After(done: string, rest: TxtOutput): TxtOutput {
    TxtOutput(done + rest.text, rest.failed)
  }

  lemma AfterAfter(first: string, second: string, rest: TxtOutput)
    ensures After(first, After(second, rest)) == After(first + second, rest)
  {
    assert first + (second + rest.text) == (first + second) + rest.text;
  }
}
