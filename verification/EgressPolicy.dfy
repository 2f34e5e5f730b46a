/** The egress check of kubernetes/network_parity.py: `check_policy` and what its empty
    answer means for every address. Parsing of address text is a parameter. */
module EgressPolicy {
  import opened Common
  import opened Cidr

  // ----- policies -----------------------------------------------------------------------

  datatype PortValue = Number(n: int) | Named(name: string)

  datatype PortSpec = PortSpec(protocol: Option<string>, port: Option<PortValue>, endPort: Option<int>)

  datatype Expression = Expression(key: string, operator: string, values: Option<seq<string>>)

  datatype Selector = Selector(matchLabels: Option<map<string, string>>, matchExpressions: Option<seq<Expression>>)

  datatype IpBlock = IpBlock(cidr: string, excepts: Option<seq<string>>)

  datatype Peer = Peer(ipBlock: Option<IpBlock>, namespaceSelector: Option<Selector>, podSelector: Option<Selector>)

  /** An ingress or egress rule: its peers are `from` or `to`. */
  datatype Rule = Rule(peers: Option<seq<Peer>>, ports: Option<seq<PortSpec>>)

  datatype Policy = Policy(namespace: Option<string>, annotations: map<string, string>, podSelector: Option<Selector>,
                           policyTypes: Option<seq<string>>, rules: seq<Rule>)

  /** `x or []`. */
  function OrEmpty<T>(x: Option<seq<T>>): seq<T> {
    if x.Some? then x.value else []
  }

  /** `ip_network(s, strict=False)`, `ip_network(s)` and `ip_address(s)`; None is ValueError. */
  datatype Ip = Ip(network: string -> Option<Block>, strict: string -> Option<Block>, address: string -> Option<Address>)

  datatype Key = PodCidr | ServiceCidr | ClusterDns | NodeLocalDns

  datatype Live = Live(podCidr: string, serviceCidr: string, clusterDns: string, nodeLocalDns: string)
  {
    function At(k: Key): string {
      match k
      case PodCidr => podCidr
      case ServiceCidr => serviceCidr
      case ClusterDns => clusterDns
      case NodeLocalDns => nodeLocalDns
    }
  }

  function Annotation(k: Key): string {
    match k
    case PodCidr => "swarm.saga.xyz/pod-cidr"
    case ServiceCidr => "swarm.saga.xyz/service-cidr"
    case ClusterDns => "swarm.saga.xyz/cluster-dns-ip"
    case NodeLocalDns => "swarm.saga.xyz/node-local-dns-ip"
  }

  const SOURCE := "swarm.saga.xyz/network-source"
  const OFFLINE := "offline-render-not-for-apply"

  // ----- one rule -----------------------------------------------------------------------

  function ProtocolOf(p: PortSpec): string {
    if p.protocol.Some? then p.protocol.value else "TCP"
  }

  /** `(protocol, port) in _ports(rule)`. */
  predicate InPorts(rule: Rule, protocol: string, port: Option<PortValue>) {
    exists i :: 0 <= i < |OrEmpty(rule.ports)| && ProtocolOf(OrEmpty(rule.ports)[i]) == protocol
                && OrEmpty(rule.ports)[i].port == port
  }

  /** `_allows`: a rule with no ports allows every port. */
  predicate Allows(rule: Rule, protocol: string, port: int) {
    OrEmpty(rule.ports) == [] || InPorts(rule, protocol, Some(Number(port)))
  }

  predicate IsDns(p: PortSpec) {
    ProtocolOf(p) in {"UDP", "TCP"} && p.port == Some(Number(53))
  }

  /** `_dns_only`. */
  predicate DnsOnly(rule: Rule) {
    var ports := OrEmpty(rule.ports);
    ports != [] && forall i :: 0 <= i < |ports| ==> IsDns(ports[i])
  }

  /** `_blocks`. */
  function BlocksOf(peers: seq<Peer>): seq<IpBlock> {
    if peers == [] then []
    else (if peers[0].ipBlock.Some? then [peers[0].ipBlock.value] else []) + BlocksOf(peers[1..])
  }

  function Blocks(rule: Rule): seq<IpBlock> {
    BlocksOf(OrEmpty(rule.peers))
  }

  predicate HasExcept(ip: Ip, b: IpBlock, a: Address) {
    exists i :: 0 <= i < |OrEmpty(b.excepts)| && Holds(ip, OrEmpty(b.excepts)[i], a)
  }

  predicate Holds(ip: Ip, text: string, a: Address) {
    ip.network(text).Some? && ip.network(text).value.Contains(a)
  }

  /** What an ipBlock means: the addresses of its cidr outside its excepts. */
  predicate BlockAdmits(ip: Ip, b: IpBlock, a: Address) {
    Holds(ip, b.cidr, a) && !HasExcept(ip, b, a)
  }

  predicate RuleAdmits(ip: Ip, rule: Rule, a: Address) {
    exists i :: 0 <= i < |Blocks(rule)| && BlockAdmits(ip, Blocks(rule)[i], a)
  }

  // ----- what there is to report --------------------------------------------------------

  datatype Problem =
    | NotRecorded(key: Key) | RenderedOtherwise(key: Key) | OfflineRender
    | NoDns(key: Key) | NotExcepted(key: Key) | Reachable(key: Key, rule: nat, block: nat)

  predicate ServesDns(ip: Ip, rule: Rule, a: Address) {
    RuleAdmits(ip, rule, a) && Allows(rule, "UDP", 53) && Allows(rule, "TCP", 53)
  }

  /** The internet rule's blocks except the range, spelled as the cluster spells it. */
  predicate ExceptedFromInternet(rules: seq<Rule>, wanted: string) {
    exists i, j :: 0 <= i < |rules| && 0 <= j < |Blocks(rules[i])| && ExceptsText(Blocks(rules[i])[j], wanted)
  }

  predicate ExceptsText(b: IpBlock, wanted: string) {
    b.cidr == "0.0.0.0/0" && wanted in OrEmpty(b.excepts)
  }

  predicate ExceptCovers(ip: Ip, b: IpBlock, n: Block) {
    exists i :: 0 <= i < |OrEmpty(b.excepts)|
      && ip.network(OrEmpty(b.excepts)[i]).Some? && n.SubnetOf(ip.network(OrEmpty(b.excepts)[i]).value)
  }

  /** The block meets the range outside every single except entry. */
  predicate Exposes(ip: Ip, b: IpBlock, network: Block) {
    ip.network(b.cidr).Some? && ip.network(b.cidr).value.Overlaps(network)
    && !ExceptCovers(ip, b, Overlap(network, ip.network(b.cidr).value))
  }

  /** A problem of the annotations. */
  predicate IsRecorded(p: Policy, live: Live, problem: Problem)
    requires problem.NotRecorded? || problem.RenderedOtherwise? || problem.OfflineRender?
  {
    match problem
    case NotRecorded(k) => Annotation(k) !in p.annotations
    case RenderedOtherwise(k) => Annotation(k) in p.annotations && p.annotations[Annotation(k)] != live.At(k)
    case OfflineRender => SOURCE in p.annotations && p.annotations[SOURCE] == OFFLINE
  }

  ghost predicate IsProblem(ip: Ip, p: Policy, live: Live, problem: Problem) {
    match problem
    case NotRecorded(_) => IsRecorded(p, live, problem)
    case RenderedOtherwise(_) => IsRecorded(p, live, problem)
    case OfflineRender => IsRecorded(p, live, problem)
    case NoDns(k) => (k.ClusterDns? || k.NodeLocalDns?) && LacksDns(ip, p.rules, live, k)
    case NotExcepted(k) => (k.PodCidr? || k.ServiceCidr?) && !ExceptedFromInternet(p.rules, live.At(k))
    case Reachable(k, i, j) =>
      (k.PodCidr? || k.ServiceCidr?) && ip.strict(live.At(k)).Some?
      && IsReachable(ip, p.rules, ip.strict(live.At(k)).value, i, j)
  }

  predicate LacksDns(ip: Ip, rules: seq<Rule>, live: Live, k: Key) {
    rules == []
    || (ip.address(live.At(k)).Some?
        && !exists i :: 0 <= i < |rules| && ServesDns(ip, rules[i], ip.address(live.At(k)).value))
  }

  predicate IsReachable(ip: Ip, rules: seq<Rule>, network: Block, i: nat, j: nat) {
    i < |rules| && !DnsOnly(rules[i]) && j < |Blocks(rules[i])| && Exposes(ip, Blocks(rules[i])[j], network)
  }

  // ----- when nothing raises ------------------------------------------------------------

  predicate Reads(ip: Ip, text: string, bits: nat) {
    ip.network(text).Some? && ip.network(text).value.bits == bits
  }

  predicate BlockReads(ip: Ip, b: IpBlock, bits: nat) {
    Reads(ip, b.cidr, bits)
    && forall i :: 0 <= i < |OrEmpty(b.excepts)| ==> Reads(ip, OrEmpty(b.excepts)[i], bits)
  }

  predicate RuleReads(ip: Ip, rule: Rule, bits: nat) {
    forall i :: 0 <= i < |Blocks(rule)| ==> BlockReads(ip, Blocks(rule)[i], bits)
  }

  predicate RulesRead(ip: Ip, rules: seq<Rule>, bits: nat) {
    forall i :: 0 <= i < |rules| ==> RuleReads(ip, rules[i], bits)
  }

  // ----- the loops ----------------------------------------------------------------------

  /** Whether an address is in some except entry; None when a text before a hit does not read. */
  method AnyExcept(ip: Ip, b: IpBlock, a: Address) returns (r: Option<bool>)
    ensures r.Some? ==> r.value == HasExcept(ip, b, a)
    ensures forall bits :: BlockReads(ip, b, bits) ==> r.Some?
  {
    var es := OrEmpty(b.excepts);
    var i := 0;
    while i < |es|
      invariant 0 <= i <= |es|
      invariant forall k :: 0 <= k < i ==> !Holds(ip, es[k], a)
    {
      var n := ip.network(es[i]);
      if n.None? {
        return None;
      }
      if n.value.Contains(a) {
        assert Holds(ip, es[i], a);
        return Some(true);
      }
      i := i + 1;
    }
    return Some(false);
  }

  /** `_reaches`. */
  method Reaches(ip: Ip, rule: Rule, a: Address) returns (r: Option<bool>)
    ensures r.Some? ==> r.value == RuleAdmits(ip, rule, a)
    ensures forall bits :: RuleReads(ip, rule, bits) ==> r.Some?
  {
    var blocks := Blocks(rule);
    var i := 0;
    while i < |blocks|
      invariant 0 <= i <= |blocks|
      invariant forall k :: 0 <= k < i ==> !BlockAdmits(ip, blocks[k], a)
    {
      var n := ip.network(blocks[i].cidr);
      assert forall bits :: RuleReads(ip, rule, bits) ==> BlockReads(ip, blocks[i], bits);
      if n.None? {
        return None;
      }
      if n.value.Contains(a) {
        var excepted := AnyExcept(ip, blocks[i], a);
        if excepted.None? {
          return None;
        }
        if !excepted.value {
          assert BlockAdmits(ip, blocks[i], a);
          return Some(true);
        }
      }
      i := i + 1;
    }
    return Some(false);
  }

  /** Whether some rule serves DNS at an address. */
  method AnyServesDns(ip: Ip, rules: seq<Rule>, a: Address) returns (r: Option<bool>)
    ensures r.Some? ==> (r.value <==> exists i :: 0 <= i < |rules| && ServesDns(ip, rules[i], a))
    ensures forall bits :: RulesRead(ip, rules, bits) ==> r.Some?
  {
    var i := 0;
    while i < |rules|
      invariant 0 <= i <= |rules|
      invariant forall k :: 0 <= k < i ==> !ServesDns(ip, rules[k], a)
    {
      assert forall bits :: RulesRead(ip, rules, bits) ==> RuleReads(ip, rules[i], bits);
      var reaches := Reaches(ip, rules[i], a);
      if reaches.None? {
        return None;
      }
      if reaches.value && Allows(rules[i], "UDP", 53) && Allows(rules[i], "TCP", 53) {
        assert ServesDns(ip, rules[i], a);
        return Some(true);
      }
      i := i + 1;
    }
    return Some(false);
  }

  /** `ip_network` over a whole except list; None when one of them does not read. */
  method ReadAll(ip: Ip, texts: seq<string>) returns (r: Option<seq<Block>>)
    ensures r.Some? ==> |r.value| == |texts|
    ensures r.Some? ==> forall i :: 0 <= i < |texts| ==> ip.network(texts[i]) == Some(r.value[i])
    ensures (forall i :: 0 <= i < |texts| ==> ip.network(texts[i]).Some?) ==> r.Some?
  {
    var blocks: seq<Block> := [];
    while |blocks| < |texts|
      invariant |blocks| <= |texts|
      invariant forall i :: 0 <= i < |blocks| ==> ip.network(texts[i]) == Some(blocks[i])
      decreases |texts| - |blocks|
    {
      var n := ip.network(texts[|blocks|]);
      if n.None? {
        return None;
      }
      blocks := blocks + [n.value];
    }
    return Some(blocks);
  }

  /** `any(overlap.subnet_of(e) for e in excepts)`; None for the TypeError across versions. */
  method AnyCovers(es: seq<Block>, n: Block) returns (r: Option<bool>)
    ensures r.Some? ==> r.value == CoveredByOne(es, n)
    ensures (forall i :: 0 <= i < |es| ==> es[i].bits == n.bits) ==> r.Some?
  {
    var i := 0;
    while i < |es|
      invariant 0 <= i <= |es|
      invariant forall k :: 0 <= k < i ==> !n.SubnetOf(es[k])
    {
      if es[i].bits != n.bits {
        return None;
      }
      if n.SubnetOf(es[i]) {
        return Some(true);
      }
      i := i + 1;
    }
    return Some(false);
  }

  /** Whether one block exposes a range. */
  method BlockExposes(ip: Ip, b: IpBlock, network: Block) returns (r: Option<bool>)
    ensures r.Some? ==> r.value == Exposes(ip, b, network)
    ensures BlockReads(ip, b, network.bits) ==> r.Some?
  {
    var cidr := ip.network(b.cidr);
    if cidr.None? {
      return None;
    }
    if !cidr.value.Overlaps(network) {
      return Some(false);
    }
    var overlap := Overlap(network, cidr.value);
    var excepts := ReadAll(ip, OrEmpty(b.excepts));
    if excepts.None? {
      return None;
    }
    var covered := AnyCovers(excepts.value, overlap);
    if covered.None? {
      return None;
    }
    assert ExceptCovers(ip, b, overlap) <==> CoveredByOne(excepts.value, overlap) by {
      var texts := OrEmpty(b.excepts);
      assert forall i :: 0 <= i < |texts| ==> ip.network(texts[i]).value == excepts.value[i];
      if i :| 0 <= i < |excepts.value| && overlap.SubnetOf(excepts.value[i]) {
        assert ip.network(texts[i]).Some? && overlap.SubnetOf(ip.network(texts[i]).value);
      }
    }
    return Some(!covered.value);
  }

  /** The problems of one rule against one range. */
  method RuleProblems(ip: Ip, rules: seq<Rule>, i: nat, k: Key, network: Block) returns (r: Option<seq<Problem>>)
    requires i < |rules| && !DnsOnly(rules[i])
    ensures r.Some? ==> forall p :: p in r.value <==>
              p.Reachable? && p.key == k && p.rule == i && IsReachable(ip, rules, network, i, p.block)
    ensures RuleReads(ip, rules[i], network.bits) ==> r.Some?
  {
    var blocks := Blocks(rules[i]);
    var problems: seq<Problem> := [];
    var j := 0;
    while j < |blocks|
      invariant 0 <= j <= |blocks|
      invariant forall p :: p in problems <==>
                  p.Reachable? && p.key == k && p.rule == i && p.block < j && IsReachable(ip, rules, network, i, p.block)
    {
      var exposes := BlockExposes(ip, blocks[j], network);
      if exposes.None? {
        return None;
      }
      if exposes.value {
        problems := problems + [Reachable(k, i, j)];
      }
      j := j + 1;
    }
    return Some(problems);
  }

  /** The problems of every rule that is not DNS-only against one range. */
  method RangeProblems(ip: Ip, rules: seq<Rule>, k: Key, network: Block) returns (r: Option<seq<Problem>>)
    ensures r.Some? ==> forall p :: p in r.value <==>
              p.Reachable? && p.key == k && IsReachable(ip, rules, network, p.rule, p.block)
    ensures RulesRead(ip, rules, network.bits) ==> r.Some?
  {
    var problems: seq<Problem> := [];
    var i := 0;
    while i < |rules|
      invariant 0 <= i <= |rules|
      invariant forall p :: p in problems <==>
                  p.Reachable? && p.key == k && p.rule < i && IsReachable(ip, rules, network, p.rule, p.block)
    {
      if !DnsOnly(rules[i]) {
        var found := RuleProblems(ip, rules, i, k, network);
        if found.None? {
          return None;
        }
        problems := problems + found.value;
      }
      i := i + 1;
    }
    return Some(problems);
  }

  /** The two problems one recorded value can have. */
  function RecordProblems(annotations: map<string, string>, live: Live, k: Key): seq<Problem> {
    if Annotation(k) !in annotations then [NotRecorded(k)]
    else if annotations[Annotation(k)] != live.At(k) then [RenderedOtherwise(k)]
    else []
  }

  /** What the policy was rendered for. */
  method RecordedProblems(p: Policy, live: Live) returns (r: seq<Problem>)
    ensures forall problem :: problem in r <==>
              (problem.NotRecorded? || problem.RenderedOtherwise? || problem.OfflineRender?)
              && IsRecorded(p, live, problem)
  {
    r := RecordProblems(p.annotations, live, PodCidr) + RecordProblems(p.annotations, live, ServiceCidr)
       + RecordProblems(p.annotations, live, ClusterDns) + RecordProblems(p.annotations, live, NodeLocalDns)
       + if SOURCE in p.annotations && p.annotations[SOURCE] == OFFLINE then [OfflineRender] else [];
  }

  method DnsProblems(ip: Ip, rules: seq<Rule>, live: Live, k: Key) returns (r: Option<seq<Problem>>)
    requires k.ClusterDns? || k.NodeLocalDns?
    ensures r.Some? ==> forall p :: p in r.value <==> p == NoDns(k) && LacksDns(ip, rules, live, k)
    ensures r.Some? && rules != [] ==> ip.address(live.At(k)).Some?
    ensures ip.address(live.At(k)).Some? && (exists bits :: RulesRead(ip, rules, bits)) ==> r.Some?
  {
    if rules == [] {
      return Some([NoDns(k)]);
    }
    var a := ip.address(live.At(k));
    if a.None? {
      return None;
    }
    var served := AnyServesDns(ip, rules, a.value);
    if served.None? {
      return None;
    }
    return Some(if served.value then [] else [NoDns(k)]);
  }

  /** The DNS part of `check_policy`. */
  method AllDnsProblems(ip: Ip, p: Policy, live: Live) returns (r: Option<seq<Problem>>)
    ensures r.Some? ==> forall problem :: problem in r.value <==>
              problem.NoDns? && (problem.key.ClusterDns? || problem.key.NodeLocalDns?)
              && LacksDns(ip, p.rules, live, problem.key)
    ensures r.Some? && p.rules != [] ==> ip.address(live.clusterDns).Some? && ip.address(live.nodeLocalDns).Some?
    ensures (ip.address(live.clusterDns).Some? && ip.address(live.nodeLocalDns).Some?
             && exists bits :: RulesRead(ip, p.rules, bits)) ==> r.Some?
  {
    var node := DnsProblems(ip, p.rules, live, NodeLocalDns);
    if node.None? {
      return None;
    }
    var cluster := DnsProblems(ip, p.rules, live, ClusterDns);
    if cluster.None? {
      return None;
    }
    return Some(node.value + cluster.value);
  }

  /** The range part of `check_policy` for one key. */
  method ClusterRangeProblems(ip: Ip, rules: seq<Rule>, live: Live, k: Key) returns (r: Option<seq<Problem>>)
    requires k.PodCidr? || k.ServiceCidr?
    ensures r.Some? ==> ip.strict(live.At(k)).Some? && forall p :: p in r.value <==>
              (p == NotExcepted(k) && !ExceptedFromInternet(rules, live.At(k)))
              || (p.Reachable? && p.key == k && IsReachable(ip, rules, ip.strict(live.At(k)).value, p.rule, p.block))
    ensures ip.strict(live.At(k)).Some? && RulesRead(ip, rules, ip.strict(live.At(k)).value.bits) ==> r.Some?
  {
    var missing := if ExceptedFromInternet(rules, live.At(k)) then [] else [NotExcepted(k)];
    var network := ip.strict(live.At(k));
    if network.None? {
      return None;
    }
    var reachable := RangeProblems(ip, rules, k, network.value);
    if reachable.None? {
      return None;
    }
    return Some(missing + reachable.value);
  }

  /** Every address and range reads, and all of one version. */
  ghost predicate Readable(ip: Ip, p: Policy, live: Live) {
    ip.strict(live.podCidr).Some? && ip.strict(live.serviceCidr).Some?
    && ip.address(live.clusterDns).Some? && ip.address(live.nodeLocalDns).Some?
    && ip.strict(live.podCidr).value.bits == ip.strict(live.serviceCidr).value.bits
    && RulesRead(ip, p.rules, ip.strict(live.podCidr).value.bits)
  }

  /** `check_policy`: it reports exactly the problems there are; None is an exception, which
      readable input never raises. */
  method CheckPolicy(ip: Ip, p: Policy, live: Live) returns (r: Option<seq<Problem>>)
    ensures r.Some? ==> forall problem :: problem in r.value <==> IsProblem(ip, p, live, problem)
    ensures r.Some? ==> ip.strict(live.podCidr).Some? && ip.strict(live.serviceCidr).Some?
    ensures r.Some? && p.rules != [] ==> ip.address(live.clusterDns).Some? && ip.address(live.nodeLocalDns).Some?
    ensures Readable(ip, p, live) ==> r.Some?
  {
    var recorded := RecordedProblems(p, live);
    var dns := AllDnsProblems(ip, p, live);
    if dns.None? {
      return None;
    }
    var pods := ClusterRangeProblems(ip, p.rules, live, PodCidr);
    if pods.None? {
      return None;
    }
    var services := ClusterRangeProblems(ip, p.rules, live, ServiceCidr);
    if services.None? {
      return None;
    }
    return Some(recorded + dns.value + pods.value + services.value);
  }

  // ----- what the empty answer means ----------------------------------------------------

  /** There is nothing to report. */
  ghost predicate Clean(ip: Ip, p: Policy, live: Live) {
    forall problem :: !IsProblem(ip, p, live, problem)
  }

  /** Whatever a block admits of a range it exposes: nothing reachable goes unreported. */
  lemma {:induction false} AdmittedIsExposed(ip: Ip, b: IpBlock, network: Block, a: Address)
    requires network.Contains(a) && BlockAdmits(ip, b, a)
    ensures Exposes(ip, b, network)
  {
    var cidr := ip.network(b.cidr).value;
    NestedOrDisjoint(cidr, network);
    OverlapIsIntersection(network, cidr, a);
    var overlap, es := Overlap(network, cidr), OrEmpty(b.excepts);
    if i :| 0 <= i < |es| && ip.network(es[i]).Some? && overlap.SubnetOf(ip.network(es[i]).value) {
      SubnetContains(overlap, ip.network(es[i]).value, a);
      assert Holds(ip, es[i], a);
    }
  }

  /** After an empty answer no address of the pod or the service range is reachable through
      an ipBlock of any rule that is not DNS-only. */
  lemma {:induction false} RangesAreIsolated(ip: Ip, p: Policy, live: Live, k: Key, i: nat, a: Address)
    requires Clean(ip, p, live) && i < |p.rules| && !DnsOnly(p.rules[i])
    requires (k.PodCidr? || k.ServiceCidr?) && ip.strict(live.At(k)).Some? && ip.strict(live.At(k)).value.Contains(a)
    ensures !RuleAdmits(ip, p.rules[i], a)
  {
    if j :| 0 <= j < |Blocks(p.rules[i])| && BlockAdmits(ip, Blocks(p.rules[i])[j], a) {
      AdmittedIsExposed(ip, Blocks(p.rules[i])[j], ip.strict(live.At(k)).value, a);
      assert IsProblem(ip, p, live, Reachable(k, i, j));
    }
  }

  /** After an empty answer some rule reaches each DNS address on UDP and TCP 53. */
  lemma {:induction false} DnsIsServed(ip: Ip, p: Policy, live: Live, k: Key)
    requires Clean(ip, p, live) && (k.ClusterDns? || k.NodeLocalDns?) && ip.address(live.At(k)).Some?
    ensures exists i :: 0 <= i < |p.rules| && RuleAdmits(ip, p.rules[i], ip.address(live.At(k)).value)
                        && Opens(p.rules[i], "UDP", 53) && Opens(p.rules[i], "TCP", 53)
  {
    assert !IsProblem(ip, p, live, NoDns(k));
    var i :| 0 <= i < |p.rules| && ServesDns(ip, p.rules[i], ip.address(live.At(k)).value);
    AllowsExactly(p.rules[i], "UDP", 53);
    AllowsExactly(p.rules[i], "TCP", 53);
  }

  /** The rule has no ports, or an entry for this port and protocol; no protocol means TCP. */
  predicate Opens(rule: Rule, protocol: string, port: int) {
    rule.ports.None? || rule.ports == Some([])
    || exists i :: 0 <= i < |rule.ports.value| && rule.ports.value[i].port == Some(Number(port))
                   && (rule.ports.value[i].protocol == Some(protocol)
                       || (rule.ports.value[i].protocol.None? && protocol == "TCP"))
  }

  lemma {:induction false} AllowsExactly(rule: Rule, protocol: string, port: int)
    ensures Allows(rule, protocol, port) <==> Opens(rule, protocol, port)
  {
    var ports := OrEmpty(rule.ports);
    if i :| 0 <= i < |ports| && ProtocolOf(ports[i]) == protocol && ports[i].port == Some(Number(port)) {
      assert ports[i].protocol == Some(protocol) || (ports[i].protocol.None? && protocol == "TCP");
    }
    if rule.ports.Some? {
      if i :| 0 <= i < |rule.ports.value| && rule.ports.value[i].port == Some(Number(port))
              && (rule.ports.value[i].protocol == Some(protocol)
                  || (rule.ports.value[i].protocol.None? && protocol == "TCP")) {
        assert ports[i].port == Some(Number(port)) && ProtocolOf(ports[i]) == protocol;
      }
    }
  }

  /** A rule is exempt exactly when it has ports and each of them is 53, of UDP or TCP, TCP being
      meant where no protocol is named. */
  lemma {:induction false} DnsOnlyExactly(rule: Rule)
    ensures DnsOnly(rule)
       <==> rule.ports.Some? && rule.ports.value != []
            && forall i :: 0 <= i < |rule.ports.value| ==>
                 rule.ports.value[i].port == Some(Number(53))
                 && rule.ports.value[i].protocol in {None, Some("TCP"), Some("UDP")}
  {
    var ports := OrEmpty(rule.ports);
    forall i | 0 <= i < |ports|
      ensures IsDns(ports[i]) <==> ports[i].port == Some(Number(53)) && ports[i].protocol in {None, Some("TCP"), Some("UDP")}
    {
    }
  }

  /** The rule's blocks are those of its peers that have one. */
  lemma {:induction false} BlocksExactly(rule: Rule, b: IpBlock)
    ensures b in Blocks(rule)
       <==> rule.peers.Some? && exists i :: 0 <= i < |rule.peers.value| && rule.peers.value[i].ipBlock == Some(b)
  {
    BlocksOfExactly(OrEmpty(rule.peers), b);
    assert rule.peers.Some? ==> OrEmpty(rule.peers) == rule.peers.value;
  }

  lemma {:induction false} BlocksOfExactly(peers: seq<Peer>, b: IpBlock)
    ensures b in BlocksOf(peers) <==> exists i :: 0 <= i < |peers| && peers[i].ipBlock == Some(b)
  {
    if peers != [] {
      BlocksOfExactly(peers[1..], b);
      assert peers[0].ipBlock == Some(b) ==> exists i :: 0 <= i < |peers| && peers[i].ipBlock == Some(b);
      if i :| 0 <= i < |peers[1..]| && peers[1..][i].ipBlock == Some(b) {
        assert peers[i + 1].ipBlock == Some(b);
      }
      if i :| 0 <= i < |peers| && peers[i].ipBlock == Some(b) {
        assert i > 0 ==> peers[1..][i - 1].ipBlock == Some(b);
      }
    }
  }

  predicate ExceptsFromAll(b: IpBlock, range: string) {
    b.cidr == "0.0.0.0/0" && b.excepts.Some? && range in b.excepts.value
  }

  /** A range counts as excepted exactly when, as the cluster spells it, it is an except entry of
      some block of the whole internet. */
  lemma {:induction false} ExceptedExactly(rules: seq<Rule>, wanted: string)
    ensures ExceptedFromInternet(rules, wanted)
       <==> exists i, b :: 0 <= i < |rules| && b in Blocks(rules[i]) && ExceptsFromAll(b, wanted)
  {
    if i, j :| 0 <= i < |rules| && 0 <= j < |Blocks(rules[i])| && ExceptsText(Blocks(rules[i])[j], wanted) {
      assert Blocks(rules[i])[j] in Blocks(rules[i]) && ExceptsFromAll(Blocks(rules[i])[j], wanted);
    }
    if i, b :| 0 <= i < |rules| && b in Blocks(rules[i]) && ExceptsFromAll(b, wanted) {
      var j :| 0 <= j < |Blocks(rules[i])| && Blocks(rules[i])[j] == b;
      assert ExceptsText(Blocks(rules[i])[j], wanted);
    }
  }

  /** A DNS address lacks service exactly when no rule that reaches it opens UDP and TCP 53. */
  lemma {:induction false} LacksDnsExactly(ip: Ip, rules: seq<Rule>, live: Live, k: Key)
    requires ip.address(live.At(k)).Some?
    ensures LacksDns(ip, rules, live, k)
       <==> forall i :: 0 <= i < |rules| && RuleAdmits(ip, rules[i], ip.address(live.At(k)).value) ==>
              !(Opens(rules[i], "UDP", 53) && Opens(rules[i], "TCP", 53))
  {
    var a := ip.address(live.At(k)).value;
    forall i | 0 <= i < |rules|
      ensures ServesDns(ip, rules[i], a) <==> RuleAdmits(ip, rules[i], a) && Opens(rules[i], "UDP", 53) && Opens(rules[i], "TCP", 53)
    {
      AllowsExactly(rules[i], "UDP", 53);
      AllowsExactly(rules[i], "TCP", 53);
    }
  }

  /** After an empty answer the policy says of each address and range that it was rendered for the
      cluster's, and it is no offline render. */
  lemma {:induction false} RenderedForThis(ip: Ip, p: Policy, live: Live)
    requires Clean(ip, p, live)
    ensures Lookup(p.annotations, "swarm.saga.xyz/pod-cidr") == Some(live.podCidr)
    ensures Lookup(p.annotations, "swarm.saga.xyz/service-cidr") == Some(live.serviceCidr)
    ensures Lookup(p.annotations, "swarm.saga.xyz/cluster-dns-ip") == Some(live.clusterDns)
    ensures Lookup(p.annotations, "swarm.saga.xyz/node-local-dns-ip") == Some(live.nodeLocalDns)
    ensures Lookup(p.annotations, "swarm.saga.xyz/network-source") != Some("offline-render-not-for-apply")
  {
    assert !IsProblem(ip, p, live, OfflineRender);
    RenderedAt(ip, p, live, PodCidr);
    RenderedAt(ip, p, live, ServiceCidr);
    RenderedAt(ip, p, live, ClusterDns);
    RenderedAt(ip, p, live, NodeLocalDns);
  }

  lemma {:induction false} RenderedAt(ip: Ip, p: Policy, live: Live, k: Key)
    requires Clean(ip, p, live)
    ensures Lookup(p.annotations, Annotation(k)) == Some(live.At(k))
  {
    assert !IsProblem(ip, p, live, NotRecorded(k)) && !IsProblem(ip, p, live, RenderedOtherwise(k));
  }

  /** The except entries as blocks. */
  function ExceptBlocks(ip: Ip, texts: seq<string>): (es: seq<Block>)
    requires forall i :: 0 <= i < |texts| ==> ip.network(texts[i]).Some?
    ensures |es| == |texts| && forall i :: 0 <= i < |texts| ==> es[i] == ip.network(texts[i]).value
  {
    if texts == [] then [] else [ip.network(texts[0]).value] + ExceptBlocks(ip, texts[1..])
  }

  lemma {:induction false} ExceptsAsBlocks(ip: Ip, b: IpBlock, n: Block, a: Address)
    requires forall i :: 0 <= i < |OrEmpty(b.excepts)| ==> ip.network(OrEmpty(b.excepts)[i]).Some?
    ensures ExceptCovers(ip, b, n) <==> CoveredByOne(ExceptBlocks(ip, OrEmpty(b.excepts)), n)
    ensures HasExcept(ip, b, a) <==> Covered(a, ExceptBlocks(ip, OrEmpty(b.excepts)))
  {
    var texts := OrEmpty(b.excepts);
    var es := ExceptBlocks(ip, texts);
    if i :| 0 <= i < |es| && n.SubnetOf(es[i]) {
      assert n.SubnetOf(ip.network(texts[i]).value);
    }
    if i :| 0 <= i < |es| && es[i].Contains(a) {
      assert Holds(ip, texts[i], a);
    }
    if i :| 0 <= i < |texts| && Holds(ip, texts[i], a) {
      assert es[i].Contains(a);
    }
  }

  /** Some address of the range gets through the block. */
  ghost predicate Admits(ip: Ip, b: IpBlock, network: Block) {
    exists a :: network.Contains(a) && BlockAdmits(ip, b, a)
  }

  /** For one range: the report is right exactly when one except entry is enough to cover what
      the block and the range share. */
  lemma {:induction false} ReportIsRight(ip: Ip, b: IpBlock, network: Block)
    requires BlockReads(ip, b, network.bits)
    ensures var cidr := ip.network(b.cidr).value;
            (Exposes(ip, b, network) <==> Admits(ip, b, network))
            <==> !cidr.Overlaps(network) || OneIsEnough(ExceptBlocks(ip, OrEmpty(b.excepts)), Overlap(network, cidr))
  {
    var cidr, es := ip.network(b.cidr).value, ExceptBlocks(ip, OrEmpty(b.excepts));
    var overlap := Overlap(network, cidr);
    ExceptsAsBlocks(ip, b, overlap, overlap.First());
    if a :| network.Contains(a) && BlockAdmits(ip, b, a) {
      AdmittedIsExposed(ip, b, network, a);
      OverlapIsIntersection(network, cidr, a);
      ExceptsAsBlocks(ip, b, overlap, a);
      assert overlap.Contains(a) && !Covered(a, es);
    }
    if cidr.Overlaps(network) {
      if CoveredByOne(es, overlap) {
        OneCoverCovers(es, overlap);
      }
      if a :| overlap.Contains(a) && !Covered(a, es) {
        ExceptsAsBlocks(ip, b, overlap, a);
        OverlapIsIntersection(network, cidr, a);
        assert network.Contains(a) && BlockAdmits(ip, b, a);
      }
    }
  }

  /** For every range: a reported exposure is a reachable address, and the other way round,
      exactly when wherever both halves of something inside the block are excepted a single
      entry excepts it whole. */
  lemma {:induction false} ExposesExactly(ip: Ip, b: IpBlock, bits: nat)
    requires BlockReads(ip, b, bits)
    ensures (forall network: Block :: network.bits == bits ==> (Exposes(ip, b, network) <==> Admits(ip, b, network)))
            <==> JoinedIn(ExceptBlocks(ip, OrEmpty(b.excepts)), ip.network(b.cidr).value)
  {
    var cidr, es := ip.network(b.cidr).value, ExceptBlocks(ip, OrEmpty(b.excepts));
    OneIsEnoughExactly(es, cidr);
    if JoinedIn(es, cidr) {
      forall network: Block | network.bits == bits
        ensures Exposes(ip, b, network) <==> Admits(ip, b, network)
      {
        ReportIsRight(ip, b, network);
        OverlapInside(network, cidr);
        assert cidr.Overlaps(network) ==> OneIsEnough(es, Overlap(network, cidr));
      }
    }
    if forall network: Block :: network.bits == bits ==> (Exposes(ip, b, network) <==> Admits(ip, b, network)) {
      forall n: Block | n.SubnetOf(cidr)
        ensures OneIsEnough(es, n)
      {
        NestedOrDisjoint(cidr, n);
        ReportIsRight(ip, b, n);
        assert Exposes(ip, b, n) <==> Admits(ip, b, n);
      }
    }
  }

  lemma {:induction false} OverlapInside(network: Block, cidr: Block)
    requires network.bits == cidr.bits
    ensures Overlap(network, cidr).SubnetOf(cidr)
  {
    SubnetOfItself(cidr);
  }

  /** Where that fails: a range whose two halves are excepted one by one leaves
      nothing reachable and is still reported. */
  lemma {:induction false} HalvesAreReported(ip: Ip, b: IpBlock, whole: Block)
    requires whole.free > 0 && ip.network(b.cidr) == Some(whole)
    requires b.excepts.Some? && |b.excepts.value| == 2
    requires ip.network(b.excepts.value[0]) == Some(Block(whole.bits, whole.free - 1, 2 * whole.index))
    requires ip.network(b.excepts.value[1]) == Some(Block(whole.bits, whole.free - 1, 2 * whole.index + 1))
    ensures Exposes(ip, b, whole) && forall a :: whole.Contains(a) ==> !BlockAdmits(ip, b, a)
  {
    var low, high := ip.network(b.excepts.value[0]).value, ip.network(b.excepts.value[1]).value;
    NestedOrDisjoint(whole, whole);
    SubnetExactly(whole, low);
    SubnetExactly(whole, high);
    forall a | whole.Contains(a)
      ensures !BlockAdmits(ip, b, a)
    {
      InOneHalf(whole, a);
      var es := OrEmpty(b.excepts);
      assert es == b.excepts.value;
      assert Holds(ip, es[0], a) || Holds(ip, es[1], a);
    }
  }

  // ----- DNS-only -----------------------------------------------------------------------

  /** The traffic a port entry admits; `endPort` widens a number to a range. */
  predicate PortAdmits(p: PortSpec, protocol: string, port: int) {
    ProtocolOf(p) == protocol
    && match p.port
       case None => true
       case Some(Named(_)) => false
       case Some(Number(n)) => if p.endPort.Some? then n <= port <= p.endPort.value else port == n
  }

  predicate PortsAdmit(rule: Rule, protocol: string, port: int) {
    OrEmpty(rule.ports) == []
    || exists i :: 0 <= i < |OrEmpty(rule.ports)| && PortAdmits(OrEmpty(rule.ports)[i], protocol, port)
  }

  predicate NoRangePast53(rule: Rule) {
    forall i :: 0 <= i < |OrEmpty(rule.ports)| ==>
      var e := OrEmpty(rule.ports)[i].endPort;
      e.Some? ==> e.value <= 53
  }

  ghost predicate AdmitsOnlyDns(rule: Rule) {
    forall protocol, port :: PortsAdmit(rule, protocol, port) ==> protocol in {"UDP", "TCP"} && port == 53
  }

  /** A rule the checker exempts as DNS-only admits only DNS exactly when no entry carries an
      `endPort` past 53, which the checker does not look at. */
  lemma {:induction false} DnsOnlyAdmitsOnlyDns(rule: Rule)
    requires DnsOnly(rule)
    ensures AdmitsOnlyDns(rule) <==> NoRangePast53(rule)
  {
    var ports := OrEmpty(rule.ports);
    assert forall i :: 0 <= i < |ports| ==> IsDns(ports[i]);
    if AdmitsOnlyDns(rule) && !NoRangePast53(rule) {
      var i :| 0 <= i < |ports| && ports[i].endPort.Some? && ports[i].endPort.value > 53;
      assert PortAdmits(ports[i], ProtocolOf(ports[i]), 54);
      assert PortsAdmit(rule, ProtocolOf(ports[i]), 54);
    }
  }

  /** For instance UDP 53 to 60000, which admits 443. */
  lemma {:induction false} DnsOnlyHidesARange()
    ensures var rule := Rule(None, Some([PortSpec(Some("UDP"), Some(Number(53)), Some(60000))]));
            DnsOnly(rule) && PortsAdmit(rule, "UDP", 443) && !AdmitsOnlyDns(rule)
  {
    var rule := Rule(None, Some([PortSpec(Some("UDP"), Some(Number(53)), Some(60000))]));
    assert IsDns(OrEmpty(rule.ports)[0]);
    assert PortAdmits(OrEmpty(rule.ports)[0], "UDP", 443);
    assert PortsAdmit(rule, "UDP", 443);
  }

  /** All together: after an empty answer, if no DNS-only rule hides a longer port range, the
      only traffic ipBlocks let into the cluster's ranges is DNS. */
  lemma {:induction false} OnlyDnsEntersTheRanges(ip: Ip, p: Policy, live: Live, k: Key, a: Address, i: nat, protocol: string, port: int)
    requires Clean(ip, p, live) && forall j :: 0 <= j < |p.rules| && DnsOnly(p.rules[j]) ==> NoRangePast53(p.rules[j])
    requires (k.PodCidr? || k.ServiceCidr?) && ip.strict(live.At(k)).Some? && ip.strict(live.At(k)).value.Contains(a)
    requires i < |p.rules| && RuleAdmits(ip, p.rules[i], a) && PortsAdmit(p.rules[i], protocol, port)
    ensures protocol in {"UDP", "TCP"} && port == 53
  {
    if DnsOnly(p.rules[i]) {
      DnsOnlyAdmitsOnlyDns(p.rules[i]);
    } else {
      RangesAreIsolated(ip, p, live, k, i, a);
    }
  }
}
