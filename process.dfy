/**
 * The boundary to `std::process::Command`: a command line, what running it
 * produced, and the failure to run it at all. Running is not modelled; the
 * environment is a function from commands to their outcomes.
 */
module Process {
  import Utf8

  /** A program with its arguments and the environment variables set for it. */
  datatype Command = Command(program: string, args: seq<string>, env: seq<(string, string)>)

  /** `std::process::ExitStatus`: a normal exit with a code, or termination by a signal. */
  datatype ExitStatus = Exited(code: int) | Signalled(signal: int) {
    /** `ExitStatus::success`: exited with code 0. */
    predicate Success() {
      Exited? && code == 0
    }
  }

  /** `std::process::Output`. */
  datatype Output = Output(status: ExitStatus, stdout: seq<Utf8.Byte>, stderr: seq<Utf8.Byte>)

  /** The result of `Command::output()`: the captured output, or an I/O error (the program could not be started). */
  datatype Spawn = Spawned(output: Output) | SpawnFailed
}
