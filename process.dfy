/**
  The part of `tokio::process::Command` that the handler uses: a builder
  that records the program and collects arguments one `.arg()` call at a
  time, and where standard output is to go.
 */
module Process {
  import opened Wrappers

  /** An invocation of a program, as the operating system sees it: the program and its argument vector. */
  datatype Invocation = Invocation(program: string, args: seq<string>)

  /** Where a child's standard output goes: the parent's own, or a pipe back to the parent. */
  datatype Stdio = Inherit | Piped

  /** How the command is launched: `.spawn()`, or `.output()`, which waits for the child and collects what it wrote. */
  datatype Launch = Spawn | Output

  class Command {
    var program: string
    var args: seq<string>
    /** The `.stdout(…)` setting, None while it has not been set. */
    var stdout: Option<Stdio>

    /** `Command::new(program)`: no arguments yet, standard output not configured. */
    constructor (program: string)
      ensures this.program == program && args == [] && stdout == None
    {
      this.program := program;
      args := [];
      stdout := None;
    }

    /** `.arg(a)`: appends one argument, kept as a single element however it is spelled. */
    method Arg(a: string)
      modifies this
      ensures args == old(args) + [a]
      ensures program == old(program) && stdout == old(stdout)
    {
      args := args + [a];
    }

    /** `.stdout(cfg)`. */
    method Stdout(cfg: Stdio)
      modifies this
      ensures stdout == Some(cfg)
      ensures program == old(program) && args == old(args)
    {
      stdout := Some(cfg);
    }

    /**
      Where the child's standard output goes when the command is launched
      this way: an explicit setting always wins; unset, `.output()` pipes it
      (so that it can collect it) and `.spawn()` lets the child inherit it.
     */
    function ChildStdout(launch: Launch): (s: Stdio)
      reads this
      ensures stdout.Some? ==> s == stdout.value
      ensures stdout.None? ==> (s == Piped <==> launch == Output)
    {
      match stdout
      case Some(cfg) => cfg
      case None => if launch == Output then Piped else Inherit
    }

    /** What running the command starts. */
    function ToInvocation(): Invocation
      reads this
    {
      Invocation(program, args)
    }
  }
}
