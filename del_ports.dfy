/**
 * del_ports: for each host port in turn, look up the line numbers of the
 * DOCKER-chain rules that mention it, send a delete command naming the stripped
 * lookup output when the lookup exited 0 or printed something, and collect a
 * message per port whose lookup or delete reported failure.
 */
module DelPorts {
  import opened Wrappers
  import opened Text
  import opened Shell

  const LookupHead := "iptables -t nat -nvL DOCKER --line-numbers | grep dpt:"
  const LookupTail := " | awk -F' ' '{print $1}'"
  const DeleteHead := "iptables -t nat -D DOCKER "
  const DeleteFailedHead := "iptables 规则删除失败: \n"
  const PortNotFoundHead := "iptables 中没有找到此端口:\n "
  const SuccessMsg := "端口映射规则删除成功"
  const FailureMsg := "端口映射规则删除失败，详见 result "

  /** The command that lists the line numbers of the rules mentioning `dpt:<port>`. */
  function LookupCommand(port: string): string {
    LookupHead + port + LookupTail
  }

  /**
   * The delete command for the given lookup output: the text is appended
   * as it is, so a multi-line output ends up in the command on several lines.
   */
  function DeleteCommand(target: string): string {
    DeleteHead + target
  }

  /** Whether del_ports treats a lookup as having found a rule: exit status 0, or any output at all. */
  predicate Found(lookup: Response) {
    lookup.code == 0 || lookup.stdout != ""
  }

  function NotFoundMessage(lookup: Response): string {
    PortNotFoundHead + lookup.stdout + "\n" + lookup.stderr
  }

  function DeleteFailedMessage(delete: Response): string {
    DeleteFailedHead + delete.stdout + "\n" + delete.stderr
  }

  /** A delete that was issued: the line-number text it targeted and the executor's reply. */
  datatype Deletion = Deletion(target: string, reply: Response)

  /** What happened to one port: its lookup, and the delete issued when the lookup counts as found. */
  datatype PortStep = PortStep(port: string, lookup: Response, delete: Option<Deletion>)

  /** The commands one port's processing sent, in order. */
  function StepCommands(step: PortStep): seq<string> {
    [LookupCommand(step.port)]
      + (if step.delete.Some? then [DeleteCommand(step.delete.value.target)] else [])
  }

  /** The commands a run of port steps sent, in order. */
  function Commands(steps: seq<PortStep>): seq<string>
    decreases |steps|
  {
    if steps == [] then []
    else Commands(steps[..|steps| - 1]) + StepCommands(steps[|steps| - 1])
  }

  /**
   * One iteration of del_ports' loop, after the commands `before`: the lookup,
   * then, only when it counts as found, the delete of its stripped output.
   */
  function ProcessPort(port: string, before: seq<string>, oracle: Oracle): (step: PortStep)
    ensures step.port == port
    ensures step.lookup == oracle(before + [LookupCommand(port)])
    ensures step.delete.Some? <==> Found(step.lookup)
    ensures step.delete.Some? ==> step.delete.value.target == Strip(step.lookup.stdout)
    ensures step.delete.Some? ==>
      step.delete.value.reply == oracle(before + [LookupCommand(port), DeleteCommand(step.delete.value.target)])
  {
    var lookup := oracle(before + [LookupCommand(port)]);
    if Found(lookup) then
      var target := Strip(lookup.stdout);
      PortStep(port, lookup, Some(Deletion(target, oracle(before + [LookupCommand(port), DeleteCommand(target)]))))
    else
      PortStep(port, lookup, None)
  }

  /** The loop of del_ports over `ports`, run after the commands `past`: one step per port. */
  function Trace(ports: seq<string>, past: seq<string>, oracle: Oracle): (steps: seq<PortStep>)
    ensures |steps| == |ports|
    decreases |ports|
  {
    if ports == [] then []
    else
      var earlier := Trace(ports[..|ports| - 1], past, oracle);
      earlier + [ProcessPort(ports[|ports| - 1], past + Commands(earlier), oracle)]
  }

  /** The entry a step leaves in `error_dict`, if any. */
  function ErrorEntry(step: PortStep): Option<string> {
    if !Found(step.lookup) then Some(NotFoundMessage(step.lookup))
    else if step.delete.Some? && step.delete.value.reply.code != 0 then Some(DeleteFailedMessage(step.delete.value.reply))
    else None
  }

  /** `error_dict` after the given steps: each failing step writes its port's entry. */
  function ErrorMap(steps: seq<PortStep>): map<string, string>
    decreases |steps|
  {
    if steps == [] then map[]
    else
      var last := steps[|steps| - 1];
      var earlier := ErrorMap(steps[..|steps| - 1]);
      match ErrorEntry(last)
      case None => earlier
      case Some(msg) => earlier[last.port := msg]
  }

  /** The trace of a longer prefix of the ports extends the shorter one by the next port's step. */
  lemma TraceSnoc(ports: seq<string>, i: nat, past: seq<string>, oracle: Oracle)
    requires i < |ports|
    ensures var earlier := Trace(ports[..i], past, oracle);
      Trace(ports[..i + 1], past, oracle) == earlier + [ProcessPort(ports[i], past + Commands(earlier), oracle)]
  {
    assert ports[..i + 1][..i] == ports[..i];
  }

  lemma CommandsSnoc(steps: seq<PortStep>, step: PortStep)
    ensures Commands(steps + [step]) == Commands(steps) + StepCommands(step)
  {
    assert (steps + [step])[..|steps|] == steps;
  }

  lemma ErrorMapSnoc(steps: seq<PortStep>, step: PortStep)
    ensures ErrorMap(steps + [step]) ==
      match ErrorEntry(step)
      case None => ErrorMap(steps)
      case Some(msg) => ErrorMap(steps)[step.port := msg]
  {
    assert (steps + [step])[..|steps|] == steps;
  }

  /** The trace of the first `k` ports is the first `k` steps of the whole trace. */
  lemma {:induction false} TracePrefix(ports: seq<string>, k: nat, past: seq<string>, oracle: Oracle)
    requires k <= |ports|
    ensures Trace(ports[..k], past, oracle) == Trace(ports, past, oracle)[..k]
    decreases |ports| - k
  {
    if k == |ports| {
      assert ports[..k] == ports;
    } else {
      TracePrefix(ports, k + 1, past, oracle);
      TraceSnoc(ports, k, past, oracle);
      var whole, next, current := Trace(ports, past, oracle), Trace(ports[..k + 1], past, oracle), Trace(ports[..k], past, oracle);
      assert |current| == k;
      assert current == next[..k];
      assert whole[..k + 1][..k] == whole[..k];
    }
  }

  /**
   * del_ports processes every port, in input order, whatever happened to the
   * ports before it: step `k` is port `k`, asked of the executor right after
   * the commands of the steps before it.
   */
  lemma TraceShape(ports: seq<string>, past: seq<string>, oracle: Oracle)
    ensures |Trace(ports, past, oracle)| == |ports|
    ensures forall k :: 0 <= k < |ports| ==>
      var steps := Trace(ports, past, oracle);
      steps[k] == ProcessPort(ports[k], past + Commands(steps[..k]), oracle)
  {
    forall k | 0 <= k < |ports|
      ensures var steps := Trace(ports, past, oracle);
        steps[k] == ProcessPort(ports[k], past + Commands(steps[..k]), oracle)
    {
      TraceAt(ports, k, past, oracle);
    }
  }

  /** Step `k` is about port `k`, and it has a delete exactly when its lookup exited 0 or printed something. */
  lemma TraceSteps(ports: seq<string>, past: seq<string>, oracle: Oracle)
    ensures forall k :: 0 <= k < |ports| ==>
      var steps := Trace(ports, past, oracle);
      steps[k].port == ports[k] && (steps[k].delete.Some? <==> Found(steps[k].lookup))
  {
    forall k | 0 <= k < |ports|
      ensures var steps := Trace(ports, past, oracle);
        steps[k].port == ports[k] && (steps[k].delete.Some? <==> Found(steps[k].lookup))
    {
      TraceAt(ports, k, past, oracle);
    }
  }

  /**
   * For port `k`, del_ports sends its lookup and then, exactly when that
   * lookup exited 0 or printed something, the delete of the stripped output.
   */
  lemma PortCommands(ports: seq<string>, past: seq<string>, oracle: Oracle)
    ensures forall k :: 0 <= k < |ports| ==>
      var step := Trace(ports, past, oracle)[k];
      StepCommands(step) == [LookupCommand(ports[k])]
        + (if Found(step.lookup) then [DeleteCommand(Strip(step.lookup.stdout))] else [])
  {
    forall k | 0 <= k < |ports|
      ensures var step := Trace(ports, past, oracle)[k];
        StepCommands(step) == [LookupCommand(ports[k])]
          + (if Found(step.lookup) then [DeleteCommand(Strip(step.lookup.stdout))] else [])
    {
      TraceAt(ports, k, past, oracle);
    }
  }

  /** Step `k` of the trace is port `k` processed after the commands of the steps before it. */
  lemma TraceAt(ports: seq<string>, k: nat, past: seq<string>, oracle: Oracle)
    requires k < |ports|
    ensures var steps := Trace(ports, past, oracle);
      steps[k] == ProcessPort(ports[k], past + Commands(steps[..k]), oracle)
  {
    var steps := Trace(ports, past, oracle);
    TracePrefix(ports, k, past, oracle);
    TracePrefix(ports, k + 1, past, oracle);
    TraceSnoc(ports, k, past, oracle);
    var upTo := Trace(ports[..k + 1], past, oracle);
    assert upTo == steps[..k + 1];
    assert steps[k] == upTo[k];
  }

  /** Each step sends one lookup and at most one delete. */
  lemma {:induction false} CommandCount(steps: seq<PortStep>)
    ensures |steps| <= |Commands(steps)| <= 2 * |steps|
    decreases |steps|
  {
    if steps != [] {
      CommandCount(steps[..|steps| - 1]);
    }
  }

  /** del_ports sends between |ports| and 2·|ports| commands. */
  lemma SentBounds(ports: seq<string>, past: seq<string>, oracle: Oracle)
    ensures |ports| <= |Commands(Trace(ports, past, oracle))| <= 2 * |ports|
  {
    CommandCount(Trace(ports, past, oracle));
  }

  /** The commands of two runs of steps, one after the other. */
  lemma {:induction false} CommandsAppend(a: seq<PortStep>, b: seq<PortStep>)
    ensures Commands(a + b) == Commands(a) + Commands(b)
    decreases |b|
  {
    if b == [] {
      assert a + b == a;
    } else {
      var n := |b|;
      CommandsAppend(a, b[..n - 1]);
      assert (a + b)[..|a + b| - 1] == a + b[..n - 1];
      assert (a + b)[|a + b| - 1] == b[n - 1];
    }
  }

  /**
   * The commands of a step are sent right after those of the steps before it
   * and right before those of the steps after it.
   */
  lemma StepCommandsInPlace(before: seq<PortStep>, step: PortStep, after: seq<PortStep>)
    ensures Commands(before + [step] + after) == Commands(before) + StepCommands(step) + Commands(after)
  {
    CommandsAppend(before + [step], after);
    CommandsSnoc(before, step);
  }

  /** A lookup command, as opposed to a delete command. */
  predicate IsLookup(cmd: string) {
    LookupHead <= cmd
  }

  /** The lookup commands among `cmds`, in order. */
  function Lookups(cmds: seq<string>): seq<string>
    decreases |cmds|
  {
    if cmds == [] then []
    else Lookups(cmds[..|cmds| - 1]) + (if IsLookup(cmds[|cmds| - 1]) then [cmds[|cmds| - 1]] else [])
  }

  lemma {:induction false} LookupsAppend(a: seq<string>, b: seq<string>)
    ensures Lookups(a + b) == Lookups(a) + Lookups(b)
    decreases |b|
  {
    if b != [] {
      var n := |b|;
      LookupsAppend(a, b[..n - 1]);
      assert (a + b)[..|a + b| - 1] == a + b[..n - 1];
    } else {
      assert a + b == a;
    }
  }

  /** Lookup and delete commands are told apart by their text. */
  lemma CommandKinds(port: string, target: string)
    ensures IsLookup(LookupCommand(port))
    ensures !IsLookup(DeleteCommand(target))
  {
    assert LookupHead[17] == 'n';
    assert DeleteCommand(target)[17] == 'D';
  }

  lemma StepLookups(step: PortStep)
    ensures Lookups(StepCommands(step)) == [LookupCommand(step.port)]
  {
    var target := if step.delete.Some? then step.delete.value.target else "";
    CommandKinds(step.port, target);
    var one := [LookupCommand(step.port)];
    assert one[..0] == [];
    if step.delete.Some? {
      assert StepCommands(step) == one + [DeleteCommand(target)];
      LookupsAppend(one, [DeleteCommand(target)]);
      assert [DeleteCommand(target)][..0] == [];
    }
  }

  /** One lookup per step, for the step's port, in step order. */
  lemma {:induction false} LookupsOfSteps(steps: seq<PortStep>)
    ensures |Lookups(Commands(steps))| == |steps|
    ensures forall k :: 0 <= k < |steps| ==> Lookups(Commands(steps))[k] == LookupCommand(steps[k].port)
    decreases |steps|
  {
    if steps != [] {
      var n := |steps|;
      var front := steps[..n - 1];
      LookupsOfSteps(front);
      assert Commands(steps) == Commands(front) + StepCommands(steps[n - 1]);
      LookupsAppend(Commands(front), StepCommands(steps[n - 1]));
      StepLookups(steps[n - 1]);
      var all := Lookups(Commands(steps));
      assert all == Lookups(Commands(front)) + [LookupCommand(steps[n - 1].port)];
      forall k | 0 <= k < n ensures all[k] == LookupCommand(steps[k].port) {
        if k < n - 1 {
          assert front[k] == steps[k];
        }
      }
    }
  }

  /** del_ports sends exactly one lookup per port, in the order of the ports. */
  lemma LookupsInOrder(ports: seq<string>, past: seq<string>, oracle: Oracle)
    ensures var lookups := Lookups(Commands(Trace(ports, past, oracle)));
      && |lookups| == |ports|
      && forall k :: 0 <= k < |ports| ==> lookups[k] == LookupCommand(ports[k])
  {
    TraceSteps(ports, past, oracle);
    LookupsOfSteps(Trace(ports, past, oracle));
  }

  /** Step `k` is for port `p` and left an error entry. */
  predicate FailsAt(steps: seq<PortStep>, p: string, k: int) {
    0 <= k < |steps| && steps[k].port == p && ErrorEntry(steps[k]).Some?
  }

  /** Step `k` is the last step for port `p` that left an error entry. */
  predicate LastFailureOf(steps: seq<PortStep>, p: string, k: int) {
    && FailsAt(steps, p, k)
    && forall j :: k < j < |steps| && steps[j].port == p ==> ErrorEntry(steps[j]).None?
  }

  lemma FailsAtFront(steps: seq<PortStep>, p: string, k: int)
    requires 0 <= k < |steps| - 1
    ensures FailsAt(steps, p, k) <==> FailsAt(steps[..|steps| - 1], p, k)
  {
    assert steps[..|steps| - 1][k] == steps[k];
  }

  /** A last failure among the first steps stays the last one when the next step does not fail for that port. */
  lemma LastFailureExtends(steps: seq<PortStep>, p: string, k: int)
    requires |steps| > 0 && LastFailureOf(steps[..|steps| - 1], p, k)
    requires !FailsAt(steps, p, |steps| - 1)
    ensures LastFailureOf(steps, p, k)
  {
    var front := steps[..|steps| - 1];
    assert steps[k] == front[k];
    forall j | k < j < |steps| && steps[j].port == p ensures ErrorEntry(steps[j]).None? {
      if j < |steps| - 1 {
        assert steps[j] == front[j];
      }
    }
  }

  /**
   * `error_dict` has a key exactly for the ports of failing steps: a later
   * success for the same port does not remove an earlier entry.
   */
  lemma {:induction false} ErrorMapKeys(steps: seq<PortStep>)
    ensures forall p :: p in ErrorMap(steps) <==> exists k :: FailsAt(steps, p, k)
    decreases |steps|
  {
    if steps != [] {
      var n := |steps|;
      var front := steps[..n - 1];
      ErrorMapKeys(front);
      forall p ensures p in ErrorMap(steps) <==> exists k :: FailsAt(steps, p, k) {
        if p in ErrorMap(steps) {
          if FailsAt(steps, p, n - 1) {
          } else {
            assert p in ErrorMap(front);
            var k :| FailsAt(front, p, k);
            FailsAtFront(steps, p, k);
          }
        }
        if exists k :: FailsAt(steps, p, k) {
          var k :| FailsAt(steps, p, k);
          if k < n - 1 {
            FailsAtFront(steps, p, k);
          }
        }
      }
    }
  }

  /** The value `error_dict` holds for a port is the message of the last failing step for it. */
  lemma {:induction false} ErrorMapValues(steps: seq<PortStep>)
    ensures forall p :: p in ErrorMap(steps) ==>
      exists k :: LastFailureOf(steps, p, k) && ErrorMap(steps)[p] == ErrorEntry(steps[k]).value
    decreases |steps|
  {
    if steps != [] {
      var n := |steps|;
      var front := steps[..n - 1];
      ErrorMapValues(front);
      forall p | p in ErrorMap(steps)
        ensures exists k :: LastFailureOf(steps, p, k) && ErrorMap(steps)[p] == ErrorEntry(steps[k]).value
      {
        if FailsAt(steps, p, n - 1) {
          assert LastFailureOf(steps, p, n - 1);
        } else {
          assert p in ErrorMap(front) && ErrorMap(steps)[p] == ErrorMap(front)[p];
          var k :| LastFailureOf(front, p, k) && ErrorMap(front)[p] == ErrorEntry(front[k]).value;
          LastFailureExtends(steps, p, k);
        }
      }
    }
  }

  /**
   * The keys of del_ports' `error_dict` are among the input ports: a port is
   * a key exactly when one of its occurrences failed.
   */
  lemma DelErrorKeys(ports: seq<string>, past: seq<string>, oracle: Oracle)
    ensures var steps := Trace(ports, past, oracle);
      forall p :: p in ErrorMap(steps) <==>
        exists k :: 0 <= k < |ports| && ports[k] == p && ErrorEntry(steps[k]).Some?
  {
    var steps := Trace(ports, past, oracle);
    TraceSteps(ports, past, oracle);
    ErrorMapKeys(steps);
    forall p ensures p in ErrorMap(steps) <==> exists k :: 0 <= k < |ports| && ports[k] == p && ErrorEntry(steps[k]).Some? {
      if p in ErrorMap(steps) {
        var k :| FailsAt(steps, p, k);
        assert ports[k] == p;
      }
      if exists k :: 0 <= k < |ports| && ports[k] == p && ErrorEntry(steps[k]).Some? {
        var k :| 0 <= k < |ports| && ports[k] == p && ErrorEntry(steps[k]).Some?;
        assert FailsAt(steps, p, k);
      }
    }
  }

  /**
   * del_ports reports success (an empty `error_dict`) exactly when every
   * port's lookup exited 0 or printed something and its delete exited 0.
   */
  lemma DelSucceeds(ports: seq<string>, past: seq<string>, oracle: Oracle)
    ensures var steps := Trace(ports, past, oracle);
      ErrorMap(steps) == map[] <==>
        forall k :: 0 <= k < |ports| ==>
          Found(steps[k].lookup) && steps[k].delete.Some? && steps[k].delete.value.reply.code == 0
  {
    var steps := Trace(ports, past, oracle);
    TraceSteps(ports, past, oracle);
    ErrorMapKeys(steps);
    if ErrorMap(steps) == map[] {
      forall k | 0 <= k < |ports|
        ensures Found(steps[k].lookup) && steps[k].delete.Some? && steps[k].delete.value.reply.code == 0
      {
        assert steps[k].port !in ErrorMap(steps);
        assert !FailsAt(steps, steps[k].port, k);
      }
    } else {
      var p :| p in ErrorMap(steps);
      var k :| FailsAt(steps, p, k);
      assert !(Found(steps[k].lookup) && steps[k].delete.Some? && steps[k].delete.value.reply.code == 0);
    }
  }

  /** The trace of a single port is that port's one step, taken right after `past`. */
  lemma SinglePortTrace(port: string, past: seq<string>, oracle: Oracle)
    ensures Trace([port], past, oracle) == [ProcessPort(port, past, oracle)]
    ensures Commands(Trace([port], past, oracle)) == StepCommands(ProcessPort(port, past, oracle))
    ensures ErrorMap(Trace([port], past, oracle)) ==
      match ErrorEntry(ProcessPort(port, past, oracle))
      case None => map[]
      case Some(msg) => map[port := msg]
  {
    var ports := [port];
    var none: seq<PortStep> := [];
    assert ports[..0] == [];
    assert Trace(ports[..0], past, oracle) == none;
    assert past + Commands(none) == past;
    var step := ProcessPort(port, past, oracle);
    var steps := Trace(ports, past, oracle);
    assert steps == [step];
    assert steps[..0] == none;
  }

  /**
   * A port whose lookup exits non-zero and prints nothing: one lookup is sent
   * and no delete, and `error_dict` holds just that port with the not-found
   * message.
   */
  lemma MissingPort(port: string, past: seq<string>, oracle: Oracle)
    requires !Found(oracle(past + [LookupCommand(port)]))
    ensures Commands(Trace([port], past, oracle)) == [LookupCommand(port)]
    ensures ErrorMap(Trace([port], past, oracle)) == map[port := NotFoundMessage(oracle(past + [LookupCommand(port)]))]
  {
    SinglePortTrace(port, past, oracle);
    var step := ProcessPort(port, past, oracle);
    assert step.delete == None;
  }

  /**
   * A lookup that exits 0 but prints nothing still counts as found: a delete
   * with an empty target is sent, and the port gets the delete-failed message
   * when that delete exits non-zero, never the not-found message. The lookup
   * is a pipeline ending in `awk`, whose exit status is usually 0 even when
   * `grep` matched nothing, so this is what a port with no rule usually meets.
   */
  lemma EmptyLookupStillDeletes(port: string, past: seq<string>, oracle: Oracle)
    requires oracle(past + [LookupCommand(port)]).code == 0
    requires oracle(past + [LookupCommand(port)]).stdout == ""
    ensures Commands(Trace([port], past, oracle)) == [LookupCommand(port), DeleteCommand("")]
    ensures var reply := oracle(past + [LookupCommand(port), DeleteCommand("")]);
      ErrorMap(Trace([port], past, oracle)) ==
        if reply.code != 0 then map[port := DeleteFailedMessage(reply)] else map[]
  {
    SinglePortTrace(port, past, oracle);
    EmptyLookupStep(port, past, oracle);
    DeleteStep(ProcessPort(port, past, oracle));
  }

  lemma EmptyLookupStep(port: string, past: seq<string>, oracle: Oracle)
    requires oracle(past + [LookupCommand(port)]).code == 0
    requires oracle(past + [LookupCommand(port)]).stdout == ""
    ensures var step := ProcessPort(port, past, oracle);
      step.port == port && step.delete == Some(Deletion("", oracle(past + [LookupCommand(port), DeleteCommand("")])))
  {
    StripEmpty();
  }

  /** A step with a delete sends its lookup and its delete, and fails exactly when the delete does. */
  lemma DeleteStep(step: PortStep)
    requires step.delete.Some?
    ensures StepCommands(step) == [LookupCommand(step.port), DeleteCommand(step.delete.value.target)]
    ensures ErrorEntry(step) ==
      if !Found(step.lookup) then Some(NotFoundMessage(step.lookup))
      else if step.delete.value.reply.code != 0 then Some(DeleteFailedMessage(step.delete.value.reply))
      else None
  {
  }

  /**
   * The delete command text holds the whole stripped lookup output: when the
   * lookup prints two line numbers, both end up in it, on two lines.
   */
  lemma MultiLineLookupTarget(first: string, second: string)
    requires first != [] && second != []
    requires !IsSpace(first[0]) && !IsSpace(second[|second| - 1])
    ensures DeleteCommand(Strip(first + "\n" + second + "\n")) == DeleteHead + first + "\n" + second
  {
    var body := first + "\n" + second;
    var out := body + "\n";
    assert out[0] == first[0];
    assert StripStart(out) == out;
    assert out[|out| - 1] == '\n';
    assert out[..|out| - 1] == body;
    assert StripEnd(out) == StripEnd(body);
    assert body[|body| - 1] == second[|second| - 1];
    assert StripEnd(body) == body;
  }

  /**
   * One iteration of del_ports' loop, after the commands `history`: the
   * commands it sends and the `error_dict` entry it writes for the port.
   */
  method DelPort(port: string, history: seq<string>, oracle: Oracle) returns (cmds: seq<string>, entry: Option<string>)
    ensures cmds == StepCommands(ProcessPort(port, history, oracle))
    ensures entry == ErrorEntry(ProcessPort(port, history, oracle))
  {
    cmds := [LookupCommand(port)];
    var lookup := oracle(history + cmds);
    ghost var step := ProcessPort(port, history, oracle);
    assert lookup == step.lookup;
    if lookup.code == 0 || lookup.stdout != "" {
      var target := Strip(lookup.stdout);
      cmds := [LookupCommand(port), DeleteCommand(target)];
      var delete := oracle(history + cmds);
      assert step.delete == Some(Deletion(target, delete));
      if delete.code != 0 {
        entry := Some(DeleteFailedMessage(delete));
      } else {
        entry := None;
      }
    } else {
      entry := Some(NotFoundMessage(lookup));
    }
  }

  /**
   * del_ports(ports), run after the commands `past`: the dictionary it
   * returns and the commands it sent.
   */
  method DelPortsCall(ports: seq<string>, past: seq<string>, oracle: Oracle) returns (res: OpResult, sent: seq<string>)
    ensures sent == Commands(Trace(ports, past, oracle))
    ensures res.result == ErrorMap(Trace(ports, past, oracle))
    ensures res.ok <==> res.result == map[]
    ensures res.msg == if res.ok then SuccessMsg else FailureMsg
  {
    var errorDict: map<string, string> := map[];
    sent := [];
    for i := 0 to |ports|
      invariant sent == Commands(Trace(ports[..i], past, oracle))
      invariant errorDict == ErrorMap(Trace(ports[..i], past, oracle))
    {
      var port := ports[i];
      TraceSnoc(ports, i, past, oracle);
      ghost var earlier := Trace(ports[..i], past, oracle);
      CommandsSnoc(earlier, ProcessPort(port, past + sent, oracle));
      ErrorMapSnoc(earlier, ProcessPort(port, past + sent, oracle));
      var cmds, entry := DelPort(port, past + sent, oracle);
      sent := sent + cmds;
      if entry.Some? {
        errorDict := errorDict[port := entry.value];
      }
    }
    assert ports[..|ports|] == ports;
    var ok := |errorDict| == 0;
    res := OpResult(ok, if ok then SuccessMsg else FailureMsg, errorDict);
  }
}
