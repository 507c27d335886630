/**
 * add_ports: one DNAT rule per `"host:container"` pair, all appended to the
 * DOCKER chain of the nat table by a single `&&`-joined command.
 */
module AddPorts {
  import opened Wrappers
  import opened Text
  import opened Shell
  import opened Errors
  import opened Resolver

  const RuleHead := "iptables -t nat -A DOCKER -p tcp --dport "
  const RuleMid := " -j DNAT --to-destination "

  /** `pair.split(':')[0]`: the host port, the text before the first colon. */
  function HostPort(pair: string): string {
    Split(pair, ":")[0]
  }

  /** `pair.split(':')[1]`: the container port, between the first colon and the next one. */
  function ContainerPort(pair: string): string
    requires ':' in pair
  {
    SplitFindsSeparator(pair, ':');
    Split(pair, ":")[1]
  }

  /**
   * The two parts of a pair are colon-free and, with a colon between them,
   * they start the pair; what follows them is nothing or begins with a colon.
   */
  lemma PairParts(pair: string)
    requires ':' in pair
    ensures ':' !in HostPort(pair) && ':' !in ContainerPort(pair)
    ensures var n := |HostPort(pair)| + 1 + |ContainerPort(pair)|;
      && n <= |pair|
      && pair[..n] == HostPort(pair) + ":" + ContainerPort(pair)
      && (n == |pair| || pair[n] == ':')
  {
    var parts := Split(pair, ":");
    SplitFindsSeparator(pair, ':');
    SplitPiecesFree(pair, ':');
    JoinSplit(pair, ":");
    var n := |parts[0]| + 1 + |parts[1]|;
    if |parts| == 2 {
      assert pair == parts[0] + ":" + parts[1];
    } else {
      assert Join(parts[1..], ":") == parts[1] + ":" + Join(parts[2..], ":");
      assert pair == parts[0] + ":" + parts[1] + ":" + Join(parts[2..], ":");
      assert pair[n] == ':';
    }
  }

  /** The rule text for one pair: `--dport HOST ... --to-destination IP:CONTAINER`. */
  function Rule(ip: string, pair: string): string
    requires ':' in pair
  {
    RuleHead + HostPort(pair) + RuleMid + ip + ":" + ContainerPort(pair)
  }

  /** The first pair has no colon and every pair before it has one. */
  predicate FirstWithoutColon(ports: seq<string>, k: int) {
    && 0 <= k < |ports|
    && ':' !in ports[k]
    && forall j :: 0 <= j < k ==> ':' in ports[j]
  }

  /**
   * The list of rule texts add_ports builds with `map` before running
   * anything: one rule per pair, in order, or the IndexError of the first pair
   * that has no colon.
   */
  function Rules(ip: string, ports: seq<string>): (r: Result<seq<string>, Failure>)
    ensures r.Success? <==> forall k :: 0 <= k < |ports| ==> ':' in ports[k]
    ensures r.Success? ==> |r.value| == |ports|
    ensures r.Success? ==> forall k :: 0 <= k < |ports| ==> ':' in ports[k] && r.value[k] == Rule(ip, ports[k])
    ensures r.Failure? ==> exists k :: 0 <= k < |ports| && FirstWithoutColon(ports, k) && r.error == MissingColon(ports[k])
    decreases |ports|
  {
    if ports == [] then Success([])
    else if ':' !in ports[0] then
      assert FirstWithoutColon(ports, 0);
      Failure(MissingColon(ports[0]))
    else
      match Rules(ip, ports[1..])
      case Failure(e) =>
        FirstWithoutColonShift(ports);
        Failure(e)
      case Success(rest) =>
        assert forall k :: 1 <= k < |ports| ==> ports[k] == ports[1..][k - 1];
        Success([Rule(ip, ports[0])] + rest)
  }

  /** The first pair without a colon after the first pair is the first one of all, when the first pair has a colon. */
  lemma FirstWithoutColonShift(ports: seq<string>)
    requires ports != [] && ':' in ports[0]
    ensures forall k :: FirstWithoutColon(ports[1..], k) ==> FirstWithoutColon(ports, k + 1)
  {
    forall k | FirstWithoutColon(ports[1..], k) ensures FirstWithoutColon(ports, k + 1) {
      assert ports[k + 1] == ports[1..][k];
      forall j | 0 <= j < k + 1 ensures ':' in ports[j] {
        if j > 0 {
          assert ports[j] == ports[1..][j - 1];
        }
      }
    }
  }

  /** The command add_ports runs: the rules joined with `" && "`. */
  function AddCommand(ip: string, ports: seq<string>): (r: Result<string, Failure>)
    ensures r.Success? <==> Rules(ip, ports).Success?
    ensures ports == [] ==> r == Success("")
  {
    match Rules(ip, ports)
    case Failure(e) => Failure(e)
    case Success(rules) => Success(Join(rules, AndSep))
  }

  /** What a completed add_ports call returns, with the commands it sent. */
  datatype AddOutcome = AddOutcome(result: OpResult, sent: seq<string>)

  /**
   * add_ports(id_or_name, ports), run after the commands in `past`: resolve
   * the container's IP on its own network, build the command, run it once,
   * and report its exit status and output.
   */
  function AddPortsCall(daemon: Daemon, idOrName: string, ports: seq<string>,
                        past: seq<string>, oracle: Oracle): (r: Result<AddOutcome, Failure>)
    ensures GetContainerIp(daemon, idOrName, None).Failure? ==>
      r == Failure(GetContainerIp(daemon, idOrName, None).error)
    ensures r.Success? <==>
      GetContainerIp(daemon, idOrName, None).Success? && forall k :: 0 <= k < |ports| ==> ':' in ports[k]
    ensures GetContainerIp(daemon, idOrName, None).Success? && r.Failure? ==>
      r == Failure(Rules(GetContainerIp(daemon, idOrName, None).value, ports).error)
    ensures r.Success? ==>
      var reply := oracle(past + r.value.sent);
      && r.value.sent == [AddCommand(GetContainerIp(daemon, idOrName, None).value, ports).value]
      && (r.value.result.ok <==> reply.code == 0)
      && r.value.result.msg == reply.stdout + "\n" + reply.stderr
      && r.value.result.result == map[]
  {
    match GetContainerIp(daemon, idOrName, None)
    case Failure(e) => Failure(e)
    case Success(ip) =>
      match AddCommand(ip, ports)
      case Failure(e) => Failure(e)
      case Success(cmd) =>
        var reply := oracle(past + [cmd]);
        Success(AddOutcome(OpResult(reply.code == 0, reply.stdout + "\n" + reply.stderr, map[]), [cmd]))
  }

  /** A rule has an `&` only where its IP or its pair has one. */
  lemma RuleWithoutAmpersand(ip: string, pair: string)
    requires ':' in pair && '&' !in ip && '&' !in pair
    ensures '&' !in Rule(ip, pair)
  {
    PairParts(pair);
    var n := |HostPort(pair)| + 1 + |ContainerPort(pair)|;
    assert HostPort(pair) + ":" + ContainerPort(pair) == pair[..n];
    assert forall c :: c in HostPort(pair) ==> c in pair[..n];
    assert forall c :: c in ContainerPort(pair) ==> c in pair[..n];
    RuleHeadWithoutAmpersand();
    RuleMidWithoutAmpersand();
  }

  lemma RuleHeadWithoutAmpersand()
    ensures '&' !in RuleHead
  {
  }

  lemma RuleMidWithoutAmpersand()
    ensures '&' !in RuleMid
  {
  }

  /**
   * The add command holds exactly one rule per pair, in input order, between
   * `" && "` separators: splitting it on `" && "` gives the rules back, so
   * long as neither the IP nor a pair contains an `&`.
   */
  lemma AddCommandRules(ip: string, ports: seq<string>)
    requires AddCommand(ip, ports).Success? && ports != []
    requires '&' !in ip && forall k :: 0 <= k < |ports| ==> '&' !in ports[k]
    ensures var pieces := Split(AddCommand(ip, ports).value, AndSep);
      && |pieces| == |ports|
      && forall k :: 0 <= k < |ports| ==> ':' in ports[k] && pieces[k] == Rule(ip, ports[k])
  {
    var rules := Rules(ip, ports).value;
    forall k | 0 <= k < |rules| ensures '&' !in rules[k] {
      RuleWithoutAmpersand(ip, ports[k]);
    }
    SplitJoinAnd(rules);
  }

  /** Formatting a pair from two colon-free ports and reading it back gives the same ports. */
  lemma PairRoundTrip(host: string, container: string)
    requires ':' !in host && ':' !in container
    ensures ':' in host + ":" + container
    ensures HostPort(host + ":" + container) == host
    ensures ContainerPort(host + ":" + container) == container
  {
    assert (host + ":" + container)[|host|] == ':';
    SplitAfterPiece(host, ':', container);
    SplitWithoutSeparator(container, ':');
  }

  /**
   * The rule for `host:container` forwards host port `host` to port
   * `container` at the given IP.
   */
  lemma RuleOfPair(ip: string, host: string, container: string)
    requires ':' !in host && ':' !in container
    ensures ':' in host + ":" + container
    ensures Rule(ip, host + ":" + container) == RuleHead + host + RuleMid + ip + ":" + container
  {
    PairRoundTrip(host, container);
  }

  /** The rules for two pairs, in their order. */
  lemma RulesOfTwo(ip: string, first: string, second: string)
    requires ':' in first && ':' in second
    ensures Rules(ip, [first, second]) == Success([Rule(ip, first), Rule(ip, second)])
  {
    var one, two := [second], [first, second];
    assert one[1..] == [];
    assert Rules(ip, one).value == [Rule(ip, second)];
    assert two[1..] == one;
    assert Rules(ip, two).value == [Rule(ip, first), Rule(ip, second)];
  }

  /** Two pairs give their two rules joined by `" && "`, first pair first. */
  lemma AddCommandOfTwoPairs(ip: string, first: string, second: string)
    requires ':' in first && ':' in second
    ensures AddCommand(ip, [first, second]) == Success(Rule(ip, first) + AndSep + Rule(ip, second))
  {
    RulesOfTwo(ip, first, second);
    var rule1, rule2 := Rule(ip, first), Rule(ip, second);
    assert Join([rule1, rule2], AndSep) == rule1 + AndSep + rule2;
  }

  /**
   * Two well-formed pairs give, in order, the rule forwarding the first host
   * port and the rule forwarding the second, joined by `" && "`.
   */
  lemma AddCommandOfTwo(ip: string, host1: string, port1: string, host2: string, port2: string)
    requires ':' !in host1 && ':' !in port1 && ':' !in host2 && ':' !in port2
    ensures AddCommand(ip, [host1 + ":" + port1, host2 + ":" + port2]) == Success(
      RuleHead + host1 + RuleMid + ip + ":" + port1 + AndSep + RuleHead + host2 + RuleMid + ip + ":" + port2)
  {
    RuleOfPair(ip, host1, port1);
    RuleOfPair(ip, host2, port2);
    AddCommandOfTwoPairs(ip, host1 + ":" + port1, host2 + ":" + port2);
    AppendSix(RuleHead + host1 + RuleMid + ip + ":" + port1 + AndSep, RuleHead, host2, RuleMid, ip, ":", port2);
  }

  /** Regrouping a concatenation that ends in six pieces. */
  lemma AppendSix<T>(x: seq<T>, a: seq<T>, b: seq<T>, c: seq<T>, d: seq<T>, e: seq<T>, f: seq<T>)
    ensures x + (a + b + c + d + e + f) == x + a + b + c + d + e + f
  {
  }
}
