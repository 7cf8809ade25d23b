/**
 * The single door to the outside world, `os::run_command_exc`: run a program
 * with an argument vector and get its standard output on a zero exit status,
 * or its standard error otherwise. The model does not spawn anything: a runner
 * records every argument vector it is given, in order, and answers with
 * `respond`, a function of the commands issued before and of the new one, so
 * that the outside world may change as commands are issued.
 */
module Os {
  import opened Wrappers

  /** An argument vector; element 0 names the program. */
  type Argv = seq<string>

  class Runner {
    /** Every argument vector run so far, oldest first. */
    var log: seq<Argv>
    /** What the outside world answers, given the earlier commands and the new one. */
    const respond: (seq<Argv>, Argv) -> Result<string, string>

    constructor (respond: (seq<Argv>, Argv) -> Result<string, string>)
      ensures log == [] && this.respond == respond
    {
      log := [];
      this.respond := respond;
    }

    /** `os::run_command_exc(argv)` */
    method Run(argv: Argv) returns (r: Result<string, string>)
      modifies this
      ensures log == old(log) + [argv]
      ensures r == respond(old(log), argv)
    {
      r := respond(log, argv);
      log := log + [argv];
    }
  }
}
