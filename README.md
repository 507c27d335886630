# Docker dynamic port mapping with iptables, in Dafny

`docker_dpm_linux_iptables.py` adds and removes port forwards for a running
Docker container by editing the `DOCKER` chain of iptables' `nat` table. This
project models its three operations and proves what they promise:

- `get_container_ip(id_or_name, network=None)` chooses the container's Docker
  network and returns the container's IP address on it (module `Resolver`).
- `add_ports(id_or_name, ports)` turns each `"host:container"` pair into an
  `iptables -A DOCKER ... DNAT` rule, joins them with `&&` into one command,
  runs it, and reports the exit status and output (module `AddPorts`).
- `del_ports(ports)` looks up each host port's rule line numbers, sends a
  delete command naming the stripped lookup output when the lookup exited 0
  or printed something, and collects an error message per port whose lookup
  or delete reported failure (module `DelPorts`).

The Docker daemon is a map from container id or name to the two attributes
the code reads: the network mode and the attached networks with their
addresses. The command runner `run_cmd` is an oracle (module `Shell`). It is
given the whole history of commands issued so far, with the current command
last, and returns an exit status, the standard output and the standard error.
So an answer may depend on the commands before it; for example, a rule deleted
for one port is gone when the next port is looked up.

The exceptions that escape are values of `Errors.Failure`:
- a container the daemon does not know;
- the `RuntimeError` for a network the container is not attached to;
- the `IndexError` that `pair.split(':')[1]` raises for a pair without a
  colon. `add_ports` builds its whole rule list before it runs anything, so
  that error means no command is sent.

`add_ports` and `get_container_ip` are expressions and become functions.
`del_ports` is a loop that updates `error_dict` and issues commands one after
another. It becomes the method `DelPorts.DelPortsCall`, with a `for` loop, a
map variable and a log of sent commands. The method is proved against the
functions `Trace`, `Commands` and `ErrorMap`, which fold one `PortStep` per
port. Python's `str.split`, `str.join` and `str.strip()` are written out in
module `Text`, with the whitespace set of `str.isspace()`.

The lookup run by `del_ports` prints the line numbers of every rule whose line
contains `dpt:<port>`, and it does not check that the port matched exactly.
The delete command carries the whole stripped output, even when it spans
several lines: `DelPorts.MultiLineLookupTarget` shows a two-line output
reaching the delete command text whole. What the shell then does with that
text is not modelled. Under `sh`, only the first line number reaches
`iptables -D`, so only the first matching rule is removed. Each further line
runs as a command of its own and fails, so the delete reports a non-zero
status and the port gets the delete-failed message even though one rule was
removed. The model sees only the command text and the status the runner
reports.

The lookup is a shell pipeline that ends in `awk`, so its exit status is
normally `awk`'s, which is 0 even when `grep` matched nothing. A port with no
rule then gets a lookup that exits 0 and prints nothing. That counts as found:
the delete `iptables -t nat -D DOCKER ` is sent with an empty target, and the
port gets the delete-failed message, not the not-found one.
`DelPorts.EmptyLookupStillDeletes` states this. The not-found branch is taken
only when the runner reports a non-zero exit with no output
(`DelPorts.MissingPort`).

## Model

| member | source | states |
|---|---|---|
| Resolver.GetContainerIp | docker_dpm_linux_iptables.py:29-51 | An unknown container is an error. For a known one, the call succeeds exactly when the chosen network name is among the attached networks, and then returns that network's `IPAddress`. Otherwise it fails with the RuntimeError text naming the container and the network. |
| Resolver.ExplicitNetworkWins | docker_dpm_linux_iptables.py:39-40 | A truthy `network` argument is the chosen name, whatever the container's network mode. |
| Resolver.ImplicitNetworkFromMode | docker_dpm_linux_iptables.py:39-44 | Without a truthy `network` (None and `""` alike), the name comes from the network mode: `default` becomes `bridge`, so `default` is never looked up, and any other mode is used as it is. |
| Resolver.NetworkNotFoundNamesBoth | docker_dpm_linux_iptables.py:47-49 | The not-found error message contains both the container id or name and the network name. |
| Resolver.GetContainerIpOutcome | docker_dpm_linux_iptables.py:46-51 | For a known container, a failure means the chosen name is not attached, and the error message names the container and the network. A success is the address of one of the attached networks. |
| AddPorts.PairParts | docker_dpm_linux_iptables.py:65 | `split(':')[0]` and `split(':')[1]` of a pair with a colon are colon-free. With a colon between them they form a prefix of the pair, and that prefix is the whole pair or is followed by a second colon. |
| AddPorts.PairRoundTrip | docker_dpm_linux_iptables.py:65 | Formatting `host:container` from two colon-free ports and splitting it on `:` gives back both ports. |
| AddPorts.RuleOfPair | docker_dpm_linux_iptables.py:63-65 | The rule for `host:container` is `--dport host`, then the resolved IP, `:` and `container` after `--to-destination`. |
| AddPorts.Rules | docker_dpm_linux_iptables.py:64-67 | The mapped list has one rule per pair, in input order, exactly when every pair has a colon. Otherwise the result is the IndexError of the first pair without a colon. |
| AddPorts.AddCommand | docker_dpm_linux_iptables.py:64-67 | The command exists exactly when the rule list does, and an empty `ports` gives the empty command. |
| AddPorts.AddCommandRules | docker_dpm_linux_iptables.py:63-67 | If no pair and not the IP contain `&`, splitting the command on `" && "` gives exactly one piece per pair: the rule for that pair, in input order. |
| AddPorts.AddCommandOfTwoPairs | docker_dpm_linux_iptables.py:64-67 | Two pairs give the first pair's rule, `" && "`, then the second pair's rule. |
| AddPorts.AddCommandOfTwo | docker_dpm_linux_iptables.py:63-67 | The full command text for two well-formed pairs, first pair first. |
| AddPorts.AddPortsCall | docker_dpm_linux_iptables.py:54-75 | Errors from the IP lookup propagate. The call succeeds exactly when the container's network resolves and every pair has a colon. On success it sends the one joined command. When the network resolves but a pair has no colon, the error is the IndexError of the first such pair, and nothing is sent. `ok` holds iff the exit status is 0, `msg` is stdout, a newline, then stderr, and `result` is empty. |
| DelPorts.ProcessPort | docker_dpm_linux_iptables.py:88-101 | One iteration: the lookup for the port is asked first. A delete is issued exactly when that lookup exited 0 or printed something. The delete targets the stripped lookup output and is asked right after the lookup. |
| DelPorts.TraceShape | docker_dpm_linux_iptables.py:88-103 | Every port is processed in input order, whatever happened to earlier ports. Step `k` is port `k`, processed right after the commands of the steps before it. |
| DelPorts.TraceSteps | docker_dpm_linux_iptables.py:88-93 | Step `k` is about port `k`, and it has a delete exactly when its lookup exited 0 or printed something. |
| DelPorts.PortCommands | docker_dpm_linux_iptables.py:89-95 | The commands for port `k` are its lookup and then, exactly when the lookup exited 0 or printed something, the delete of the stripped lookup output. |
| DelPorts.SentBounds | docker_dpm_linux_iptables.py:88-95 | del_ports sends between `len(ports)` and `2·len(ports)` commands. |
| DelPorts.StepCommandsInPlace | docker_dpm_linux_iptables.py:88-95 | A port's commands come after those of the earlier ports and before those of the later ones. |
| DelPorts.LookupsInOrder | docker_dpm_linux_iptables.py:88-91 | The lookup commands among those sent are exactly one per port, in the order of the ports. |
| DelPorts.ErrorMapKeys | docker_dpm_linux_iptables.py:87-101 | `error_dict` has a key exactly for the ports of failing steps. A later success for the same port does not remove an earlier entry. |
| DelPorts.ErrorMapValues | docker_dpm_linux_iptables.py:87-101 | The value stored for a port is the message of the last failing step for that port. |
| DelPorts.DelErrorKeys | docker_dpm_linux_iptables.py:87-101 | Every key of `error_dict` is an input port. A port is a key exactly when one of its occurrences had a lookup that exited non-zero with no output, or a delete that exited non-zero. |
| DelPorts.DelSucceeds | docker_dpm_linux_iptables.py:87-107 | `error_dict` is empty exactly when every lookup exited 0 or printed something, and every delete exited 0. |
| DelPorts.MissingPort | docker_dpm_linux_iptables.py:99-101 | For a port whose lookup exits non-zero with no output, only the lookup is sent, and `error_dict` is just that port with the not-found message. |
| DelPorts.EmptyLookupStillDeletes | docker_dpm_linux_iptables.py:84-98 | A lookup that exits 0 with no output still counts as found. The lookup is followed by a delete with an empty target, and the port gets the delete-failed message exactly when that delete exits non-zero. It never gets the not-found message. |
| DelPorts.MultiLineLookupTarget | docker_dpm_linux_iptables.py:94 | A lookup that prints two line numbers puts both, on two lines, into the one delete command. |
| DelPorts.DelPort | docker_dpm_linux_iptables.py:89-101 | The loop body: the commands it sends and the `error_dict` entry it writes are those of `ProcessPort`. |
| DelPorts.DelPortsCall | docker_dpm_linux_iptables.py:78-109 | The commands sent are those of the trace of the ports. `result` is `error_dict` as folded from the trace. `ok` holds exactly when it is empty, and `msg` is the fixed success or failure text accordingly. |
| Text.JoinSplit | docker_dpm_linux_iptables.py:64-65 | `sep.join(s.split(sep)) == s`. |
| Text.SplitFindsSeparator | docker_dpm_linux_iptables.py:65 | Splitting on a character gives at least two pieces exactly when the character occurs. This is when `[1]` does not raise. |
| Text.SplitJoinAnd | docker_dpm_linux_iptables.py:64 | Splitting on `" && "` a non-empty join of `&`-free parts gives the parts back. |
| Text.StripTrims | docker_dpm_linux_iptables.py:94 | `strip()` removes only whitespace, from both ends, and its result neither starts nor ends with whitespace. |
| Text.StripIdempotent | docker_dpm_linux_iptables.py:94 | Stripping twice is stripping once. |

## Left out

- `run_cmd` (lines 12-26): a process started through a shell. It becomes the oracle. The meaning of `&&`, pipes, `grep` and `awk`, the splitting of a multi-line delete command into several commands, and the effect of the commands on the live iptables table, are not modelled. Nothing is claimed about which rules the lookup matches: `grep dpt:<port>` also matches longer port numbers.
- The Docker client (lines 36-37): a map from id or name to the container's attributes. A missing container is the error `ContainerNotFound`, which is propagated. Connection errors are not modelled.
- UTF-8 decoding of the captured output (lines 73, 94, 97-101): outputs are strings already. Decoding errors are not modelled.
- `time.sleep(0.5)` (line 103): timing only.
- The `__main__` demonstration (lines 112-114).
- Ports are strings. `del_ports` would also accept integers in `ports` and would format them the same way, but the keys of `error_dict` would then be integers. In `add_ports` a pair that is not a string raises AttributeError on `split`, which is not modelled.
- The exit status is an unbounded integer. The only thing the code does with it is compare it with 0.
