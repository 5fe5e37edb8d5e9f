/**
 * The decision the default executer takes on a command
 * (console/executer.go, and its older copy executer.go).
 */
module Executer {

  /** What Execute returns, and whether it echoes the command. */
  datatype Verdict = Verdict(status: int, keepRunning: bool, echo: bool)

  /** "exit" stops the console; any other command keeps it running and is
      echoed once when it is not empty. The status code is always 0. */
  function Decide(command: string): (v: Verdict)
    ensures v.status == 0
    ensures !v.keepRunning <==> command == "exit"
    ensures v.echo <==> command != "exit" && |command| > 0
  {
    if command == "exit" then Verdict(0, false, false)
    else Verdict(0, true, |command| > 0)
  }
}
