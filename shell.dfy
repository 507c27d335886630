/**
 * The command executor (`run_cmd`) and the result record the operations
 * return. How a command is run (a shell, pipes, `iptables`) is not modelled:
 * the executor is an oracle that answers each command.
 */
module Shell {

  /** What running one command gives back: the exit status and the captured output. */
  datatype Response = Response(code: int, stdout: string, stderr: string)

  /**
   * The executor. It is asked with the whole history of commands issued so
   * far, the command being run last, so its answer may depend on everything
   * that ran before (a rule deleted by an earlier command is gone).
   */
  type Oracle = seq<string> -> Response

  /** The dictionary `add_ports` and `del_ports` return: `ok`, `msg` and `result`. */
  datatype OpResult = OpResult(ok: bool, msg: string, result: map<string, string>)
}
