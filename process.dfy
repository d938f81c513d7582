/** The outcome of an external command (git, lune) and the conversion of a
    non-zero exit into an error (download.rs, `SuccessOrError`). Commands are
    never run by the model: each call site receives its outcome as input. */
module Process {
  import opened Outcomes
  import opened Text

  /** How a process ended: with an exit code, or killed by a signal (which
      carries no exit code). */
  datatype ExitStatus = Exited(code: int) | Signalled

  datatype Output = Output(status: ExitStatus, stdout: string, stderr: string)

  /** A command either could not be started, or ran to completion. */
  datatype Outcome = SpawnFailed(reason: string) | Completed(output: Output)

  predicate Success(s: ExitStatus) {
    s.Exited? && s.code == 0
  }

  /** `status.code().unwrap_or(1)`. */
  function CodeOrOne(s: ExitStatus): int {
    if s.Exited? then s.code else 1
  }

  /** The text of the error raised for a failed command. */
  function FailureText(o: Output): string {
    "Failed with exit code " + IntToDecimal(CodeOrOne(o.status)) + "\n" + o.stderr + "\n" + o.stdout
  }

  /** `success_or_error`: the output itself when the command succeeded;
      otherwise an error naming the exit code (1 for a signal) and carrying
      standard error and standard output verbatim. */
  function SuccessOrError(o: Output): (r: Result<Output>)
    ensures r.Ok? <==> Success(o.status)
    ensures r.Ok? ==> r.value == o
    ensures r.Err? ==> r.error == Fail(FailureText(o))
  {
    if Success(o.status) then Ok(o) else Err(Fail(FailureText(o)))
  }

  /** The exit code can be read back from the error text: it is the decimal
      number between the fixed prefix and the first line break, and the line
      break is followed by standard error then, after a second line break,
      standard output. */
  lemma FailureTextParses(o: Output)
    ensures var code := IntToDecimal(CodeOrOne(o.status));
            var prefix := "Failed with exit code ";
            var t := FailureText(o);
            && t == prefix + code + "\n" + o.stderr + "\n" + o.stdout
            && '\n' !in code
            && t[|prefix|..|prefix| + |code|] == code
            && t[|prefix| + |code|] == '\n'
            && t[|prefix| + |code| + 1..] == o.stderr + "\n" + o.stdout
  {
    IntToDecimalHasNoNewline(CodeOrOne(o.status));
  }

  /** Running a command and passing it through `success_or_error`: a failure
      to start it is an error too (the `?` after `output()`). */
  function Run(outcome: Outcome): (r: Result<Output>)
    ensures r.Ok? <==> outcome.Completed? && Success(outcome.output.status)
    ensures r.Ok? ==> r.value == outcome.output
  {
    match outcome
    case SpawnFailed(reason) => Err(Fail(reason))
    case Completed(o) => SuccessOrError(o)
  }
}
