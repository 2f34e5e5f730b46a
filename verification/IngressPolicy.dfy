/** The ingress checks of kubernetes/network_parity.py: the relay's, the graph service's and
    the Jev egress's, and the traffic an empty answer fixes. */
module IngressPolicy {
  import opened Common
  import opened Cidr
  import opened EgressPolicy

  // ----- constants ----------------------------------------------------------------------

  const SYSTEM_NAMESPACE := "swarm-system"
  const API_CIDR_ANNOTATION := "swarm.saga.xyz/swarm-api-egress-cidr"

  function Labels(key: string, value: string): Selector {
    Selector(Some(map[key := value]), None)
  }

  function PodsNamed(name: string): Selector {
    Labels("app.kubernetes.io/name", name)
  }

  /** A namespace a tenant render made. */
  const TENANT_NAMESPACE := Selector(Some(map["app.kubernetes.io/part-of" := "swarm"]),
                                     Some([Expression("swarm-tenant", "Exists", None)]))

  const TENANT_POD_PEER := Peer(None, Some(TENANT_NAMESPACE), Some(Labels("swarm-live", "enabled")))
  const GRAPH_TENANT_PEER := Peer(None, Some(TENANT_NAMESPACE), None)
  const GRAPH_PEER_PODS := Peer(None, None, Some(PodsNamed("swarm-graph")))
  const JEV_JUDGE_PEER := Peer(None, Some(TENANT_NAMESPACE), Some(Labels("swarm-judge", "internal")))

  function ApiPeer(cidr: string): Peer {
    Peer(Some(IpBlock(cidr, None)), None, None)
  }

  function Tcp(port: int): seq<PortSpec> {
    [PortSpec(Some("TCP"), Some(Number(port)), None)]
  }

  // ----- traffic ------------------------------------------------------------------------

  /** Whether a peer selects a source; Kubernetes decides, the checks only compare shapes. */
  type Matches<!Source> = (Peer, Source) -> bool

  /** A rule with no peers admits every source; one with no ports, every port. */
  predicate RuleLets<Source>(m: Matches<Source>, rule: Rule, source: Source, protocol: string, port: int) {
    (OrEmpty(rule.peers) == [] || exists i :: 0 <= i < |OrEmpty(rule.peers)| && m(OrEmpty(rule.peers)[i], source))
    && PortsAdmit(rule, protocol, port)
  }

  predicate Lets<Source>(m: Matches<Source>, rules: seq<Rule>, source: Source, protocol: string, port: int) {
    exists i :: 0 <= i < |rules| && RuleLets(m, rules[i], source, protocol, port)
  }

  // ----- the relay ----------------------------------------------------------------------

  datatype IngressProblem =
    | Namespace | Recorded | Selects | Types                             // metadata
    | NoRule | Ports(rule: nat) | NoPeer(rule: nat) | Admits(rule: nat, peer: nat)
    | Lacks(wanted: Peer)                                                // the relay's
    | NotExpected(rule: nat) | NotOnce(expected: nat)                    // the graph's and Jev's
    | Blocks(count: nat) | BlockRange(cidr: string) | BlockShape | BlockPorts

  /** `_rules_admit_only`: every rule is TCP 8080 exactly, every peer one of those allowed. */
  method RulesAdmitOnly(rules: seq<Rule>, allowed: seq<Peer>) returns (problems: seq<IngressProblem>)
    ensures problems == [] <==> AdmitOnly(rules, allowed)
  {
    problems := if rules == [] then [NoRule] else [];
    var i := 0;
    while i < |rules|
      invariant 0 <= i <= |rules|
      invariant problems == [] <==> rules != [] && forall k :: 0 <= k < i ==> RuleAdmitsOnly(rules[k], allowed)
    {
      if rules[i].ports != Some(Tcp(8080)) {
        problems := problems + [Ports(i)];
      }
      if OrEmpty(rules[i].peers) == [] {
        problems := problems + [NoPeer(i)];
      } else {
        var peers := PeersNotAllowed(i, OrEmpty(rules[i].peers), allowed);
        problems := problems + peers;
      }
      i := i + 1;
    }
  }

  method PeersNotAllowed(i: nat, peers: seq<Peer>, allowed: seq<Peer>) returns (problems: seq<IngressProblem>)
    ensures problems == [] <==> forall j :: 0 <= j < |peers| ==> peers[j] in allowed
  {
    problems := [];
    var j := 0;
    while j < |peers|
      invariant 0 <= j <= |peers|
      invariant problems == [] <==> forall k :: 0 <= k < j ==> peers[k] in allowed
    {
      if peers[j] !in allowed {
        problems := problems + [Admits(i, j)];
      }
      j := j + 1;
    }
  }

  predicate RuleAdmitsOnly(rule: Rule, allowed: seq<Peer>) {
    rule.ports == Some(Tcp(8080)) && OrEmpty(rule.peers) != []
    && forall j :: 0 <= j < |OrEmpty(rule.peers)| ==> OrEmpty(rule.peers)[j] in allowed
  }

  predicate AdmitOnly(rules: seq<Rule>, allowed: seq<Peer>) {
    rules != [] && forall i :: 0 <= i < |rules| ==> RuleAdmitsOnly(rules[i], allowed)
  }

  /** Some rule names the peer. */
  predicate Names(rules: seq<Rule>, wanted: Peer) {
    exists i :: 0 <= i < |rules| && wanted in OrEmpty(rules[i].peers)
  }

  lemma {:induction false} NamesExactly(rules: seq<Rule>, wanted: Peer)
    ensures Names(rules, wanted) <==> exists rule :: rule in rules && rule.peers.Some? && wanted in rule.peers.value
  {
    if i :| 0 <= i < |rules| && wanted in OrEmpty(rules[i].peers) {
      assert rules[i] in rules && rules[i].peers.Some?;
    }
    if rule :| rule in rules && rule.peers.Some? && wanted in rule.peers.value {
      var i :| 0 <= i < |rules| && rules[i] == rule;
      assert wanted in OrEmpty(rules[i].peers);
    }
  }

  /** The checks every ingress policy shares. */
  function MetadataProblems(p: Policy, selector: Selector): seq<IngressProblem> {
    (if p.namespace != Some(SYSTEM_NAMESPACE) then [Namespace] else [])
    + (if p.podSelector != Some(selector) then [Selects] else [])
    + (if p.policyTypes != Some(["Ingress"]) then [Types] else [])
  }

  predicate MetadataRight(p: Policy, selector: Selector) {
    p.namespace == Some(SYSTEM_NAMESPACE) && p.podSelector == Some(selector) && p.policyTypes == Some(["Ingress"])
  }

  predicate Records(p: Policy, apiCidr: string) {
    API_CIDR_ANNOTATION in p.annotations && p.annotations[API_CIDR_ANNOTATION] == apiCidr
  }

  /** `check_live_ingress`. */
  method CheckLiveIngress(p: Policy, apiCidr: string) returns (problems: seq<IngressProblem>)
    ensures problems == [] <==>
              MetadataRight(p, PodsNamed("swarm-live")) && Records(p, apiCidr)
              && AdmitOnly(p.rules, [TENANT_POD_PEER, ApiPeer(apiCidr)])
              && Names(p.rules, TENANT_POD_PEER) && Names(p.rules, ApiPeer(apiCidr))
  {
    problems := MetadataProblems(p, PodsNamed("swarm-live"))
              + (if Records(p, apiCidr) then [] else [Recorded]);
    var only := RulesAdmitOnly(p.rules, [TENANT_POD_PEER, ApiPeer(apiCidr)]);
    problems := problems + only
              + (if Names(p.rules, TENANT_POD_PEER) then [] else [Lacks(TENANT_POD_PEER)])
              + (if Names(p.rules, ApiPeer(apiCidr)) then [] else [Lacks(ApiPeer(apiCidr))]);
  }

  lemma {:induction false} Only8080(rule: Rule, protocol: string, port: int)
    requires rule.ports == Some(Tcp(8080))
    ensures PortsAdmit(rule, protocol, port) <==> protocol == "TCP" && port == 8080
  {
    var ports := OrEmpty(rule.ports);
    assert |ports| == 1;
    assert PortAdmits(ports[0], protocol, port) <==> protocol == "TCP" && port == 8080;
  }

  /** The relay check's empty answer fixes the traffic: a source is let in exactly when it is
      a labelled tenant pod or in swarm-api's range, on TCP 8080, however the rules are grouped. */
  lemma {:induction false} RelayAdmitsExactly<Source>(m: Matches<Source>, rules: seq<Rule>, apiCidr: string,
                                                      source: Source, protocol: string, port: int)
    requires AdmitOnly(rules, [TENANT_POD_PEER, ApiPeer(apiCidr)])
    requires Names(rules, TENANT_POD_PEER) && Names(rules, ApiPeer(apiCidr))
    ensures Lets(m, rules, source, protocol, port)
       <==> (m(TENANT_POD_PEER, source) || m(ApiPeer(apiCidr), source)) && protocol == "TCP" && port == 8080
  {
    var allowed := [TENANT_POD_PEER, ApiPeer(apiCidr)];
    if i :| 0 <= i < |rules| && RuleLets(m, rules[i], source, protocol, port) {
      assert RuleAdmitsOnly(rules[i], allowed);
      Only8080(rules[i], protocol, port);
    }
    forall wanted | wanted in allowed && m(wanted, source) && protocol == "TCP" && port == 8080
      ensures Lets(m, rules, source, protocol, port)
    {
      var i :| 0 <= i < |rules| && wanted in OrEmpty(rules[i].peers);
      assert RuleAdmitsOnly(rules[i], allowed);
      Only8080(rules[i], protocol, port);
      var peers := OrEmpty(rules[i].peers);
      var j :| 0 <= j < |peers| && peers[j] == wanted;
      assert m(peers[j], source);
      assert RuleLets(m, rules[i], source, protocol, port);
    }
    assert TENANT_POD_PEER in allowed && ApiPeer(apiCidr) in allowed;
  }

  // ----- exact rule lists ---------------------------------------------------------------

  predicate Distinct(rules: seq<Rule>) {
    forall i, j :: 0 <= i < j < |rules| ==> rules[i] != rules[j]
  }

  /** Every rule is an expected one and every expected one is there once: a permutation. */
  lemma {:induction false} OnceEachIsPermutation(rules: seq<Rule>, expected: seq<Rule>)
    requires Distinct(expected)
    ensures (forall i :: 0 <= i < |rules| ==> rules[i] in expected)
            && (forall k :: 0 <= k < |expected| ==> multiset(rules)[expected[k]] == 1)
       <==> multiset(rules) == multiset(expected)
  {
    forall k | 0 <= k < |expected|
      ensures multiset(expected)[expected[k]] == 1
    {
      CountOne(expected, k);
    }
    if (forall i :: 0 <= i < |rules| ==> rules[i] in expected)
       && (forall k :: 0 <= k < |expected| ==> multiset(rules)[expected[k]] == 1) {
      forall r: Rule
        ensures multiset(rules)[r] == multiset(expected)[r]
      {
        if r in rules {
          var i :| 0 <= i < |rules| && rules[i] == r;
          assert rules[i] in expected;
        }
        if r in expected {
          var k :| 0 <= k < |expected| && expected[k] == r;
        }
      }
    }
    if multiset(rules) == multiset(expected) {
      forall i | 0 <= i < |rules|
        ensures rules[i] in expected
      {
        assert rules[i] in multiset(rules);
      }
    }
  }

  lemma {:induction false} CountOne(rules: seq<Rule>, k: nat)
    requires Distinct(rules) && k < |rules|
    ensures multiset(rules)[rules[k]] == 1
  {
    var before, after := rules[..k], rules[k + 1..];
    assert rules == before + [rules[k]] + after;
    assert rules[k] !in before && rules[k] !in after;
    assert multiset(before)[rules[k]] == 0 && multiset(after)[rules[k]] == 0;
  }

  /** The two loops `check_graph_ingress` and `check_jev_egress_ingress` end with. */
  method ExactRules(rules: seq<Rule>, expected: seq<Rule>) returns (problems: seq<IngressProblem>)
    requires Distinct(expected)
    ensures problems == [] <==> multiset(rules) == multiset(expected)
  {
    problems := [];
    var i := 0;
    while i < |rules|
      invariant 0 <= i <= |rules|
      invariant problems == [] <==> forall k :: 0 <= k < i ==> rules[k] in expected
    {
      if rules[i] !in expected {
        problems := problems + [NotExpected(i)];
      }
      i := i + 1;
    }
    var j := 0;
    while j < |expected|
      invariant 0 <= j <= |expected|
      invariant problems == [] <==> (forall k :: 0 <= k < |rules| ==> rules[k] in expected)
                                    && (forall k :: 0 <= k < j ==> multiset(rules)[expected[k]] == 1)
    {
      if multiset(rules)[expected[j]] != 1 {
        problems := problems + [NotOnce(j)];
      }
      j := j + 1;
    }
    OnceEachIsPermutation(rules, expected);
  }

  /** What a rule list lets in does not depend on its order. */
  lemma {:induction false} OrderDoesNotMatter<Source>(m: Matches<Source>, r1: seq<Rule>, r2: seq<Rule>,
                                                      source: Source, protocol: string, port: int)
    requires multiset(r1) == multiset(r2) && Lets(m, r1, source, protocol, port)
    ensures Lets(m, r2, source, protocol, port)
  {
    var i :| 0 <= i < |r1| && RuleLets(m, r1[i], source, protocol, port);
    assert r1[i] in multiset(r1);
    assert r1[i] in r2;
    var j :| 0 <= j < |r2| && r2[j] == r1[i];
    assert RuleLets(m, r2[j], source, protocol, port);
  }

  /** One peer on one TCP port. */
  function Single(peer: Peer, port: int): Rule {
    Rule(Some([peer]), Some(Tcp(port)))
  }

  lemma {:induction false} SingleLets<Source>(m: Matches<Source>, peer: Peer, at: int, source: Source, protocol: string, port: int)
    ensures RuleLets(m, Single(peer, at), source, protocol, port) <==> m(peer, source) && protocol == "TCP" && port == at
  {
    var rule := Single(peer, at);
    var peers, ports := OrEmpty(rule.peers), OrEmpty(rule.ports);
    assert |peers| == 1 && peers[0] == peer && |ports| == 1;
    assert PortAdmits(ports[0], protocol, port) <==> protocol == "TCP" && port == at;
  }

  // ----- the graph service --------------------------------------------------------------

  function GraphRules(apiCidr: string): (rules: seq<Rule>)
    ensures Distinct(rules)
  {
    [Single(GRAPH_TENANT_PEER, 8080), Single(ApiPeer(apiCidr), 8081), Single(GRAPH_PEER_PODS, 8081)]
  }

  /** `check_graph_ingress`. */
  method CheckGraphIngress(p: Policy, apiCidr: string) returns (problems: seq<IngressProblem>)
    ensures problems == [] <==>
              MetadataRight(p, PodsNamed("swarm-graph")) && multiset(p.rules) == multiset(GraphRules(apiCidr))
  {
    problems := MetadataProblems(p, PodsNamed("swarm-graph"));
    var exact := ExactRules(p.rules, GraphRules(apiCidr));
    problems := problems + exact;
  }

  /** The graph check's empty answer fixes the traffic: tenants on 8080, swarm-api's range and
      the graph's own pods on 8081, nothing else. */
  lemma {:induction false} GraphAdmitsExactly<Source>(m: Matches<Source>, rules: seq<Rule>, apiCidr: string,
                                                      source: Source, protocol: string, port: int)
    requires multiset(rules) == multiset(GraphRules(apiCidr))
    ensures Lets(m, rules, source, protocol, port) <==>
              protocol == "TCP"
              && ((port == 8080 && m(GRAPH_TENANT_PEER, source))
                  || (port == 8081 && (m(ApiPeer(apiCidr), source) || m(GRAPH_PEER_PODS, source))))
  {
    var expected := GraphRules(apiCidr);
    SingleLets(m, GRAPH_TENANT_PEER, 8080, source, protocol, port);
    SingleLets(m, ApiPeer(apiCidr), 8081, source, protocol, port);
    SingleLets(m, GRAPH_PEER_PODS, 8081, source, protocol, port);
    assert RuleLets(m, expected[0], source, protocol, port) || RuleLets(m, expected[1], source, protocol, port)
           || RuleLets(m, expected[2], source, protocol, port)
           <==> Lets(m, expected, source, protocol, port);
    if Lets(m, rules, source, protocol, port) {
      OrderDoesNotMatter(m, rules, expected, source, protocol, port);
    }
    if Lets(m, expected, source, protocol, port) {
      OrderDoesNotMatter(m, expected, rules, source, protocol, port);
    }
  }

  // ----- the Jev egress -----------------------------------------------------------------

  function JevRules(apiCidr: string): (rules: seq<Rule>)
    ensures Distinct(rules)
  {
    [Single(JEV_JUDGE_PEER, 8443), Single(ApiPeer(apiCidr), 8443)]
  }

  /** The peers of a rule list that hold an ipBlock, each with its rule. */
  function BlockPeers(rules: seq<Rule>): (found: seq<(nat, Peer)>)
    ensures forall k :: 0 <= k < |found| ==> found[k].0 < |rules| && found[k].1.ipBlock.Some?
  {
    if rules == [] then []
    else BlockPeers(rules[..|rules| - 1]) + BlockPeersOf(|rules| - 1, OrEmpty(rules[|rules| - 1].peers))
  }

  function BlockPeersOf(i: nat, peers: seq<Peer>): (found: seq<(nat, Peer)>)
    ensures forall k :: 0 <= k < |found| ==> found[k].0 == i && found[k].1.ipBlock.Some?
  {
    if peers == [] then []
    else (if peers[0].ipBlock.Some? then [(i, peers[0])] else []) + BlockPeersOf(i, peers[1..])
  }

  /** The one ipBlock, its range, its bareness and its port, each named when wrong. */
  function BlockProblems(rules: seq<Rule>, apiCidr: string): seq<IngressProblem> {
    var blocks := BlockPeers(rules);
    if |blocks| != 1 then [Blocks(|blocks|)]
    else
      var (i, peer) := blocks[0];
      var admitted := peer.ipBlock.value.cidr;
      (if admitted != apiCidr then [BlockRange(admitted)] else [])
      + (if peer != ApiPeer(admitted) then [BlockShape] else [])
      + (if rules[i].ports != Some(Tcp(8443)) then [BlockPorts] else [])
  }

  /** A right rule list has nothing wrong with its ipBlock. */
  lemma {:induction false} RightRulesHaveOneBlock(rules: seq<Rule>, apiCidr: string)
    requires multiset(rules) == multiset(JevRules(apiCidr))
    ensures BlockProblems(rules, apiCidr) == []
  {
    var judge, api := Single(JEV_JUDGE_PEER, 8443), Single(ApiPeer(apiCidr), 8443);
    PairPermuted(rules, judge, api);
    assert [judge, api][..1] == [judge] && [api, judge][..1] == [api] && [judge][..0] == [] && [api][..0] == [];
    OnePeer(0, JEV_JUDGE_PEER);
    OnePeer(1, JEV_JUDGE_PEER);
    OnePeer(0, ApiPeer(apiCidr));
    OnePeer(1, ApiPeer(apiCidr));
    if rules == [judge, api] {
      assert BlockPeers([judge]) == BlockPeersOf(0, [JEV_JUDGE_PEER]) == [];
      assert BlockPeers(rules) == [(1, ApiPeer(apiCidr))];
    } else {
      assert BlockPeers([api]) == BlockPeersOf(0, [ApiPeer(apiCidr)]) == [(0, ApiPeer(apiCidr))];
      assert BlockPeers(rules) == [(0, ApiPeer(apiCidr))];
    }
  }

  lemma {:induction false} OnePeer(i: nat, peer: Peer)
    ensures BlockPeersOf(i, [peer]) == if peer.ipBlock.Some? then [(i, peer)] else []
  {
    assert [peer][1..] == [];
  }

  lemma {:induction false} PairPermuted<T>(s: seq<T>, a: T, b: T)
    requires multiset(s) == multiset([a, b])
    ensures s == [a, b] || s == [b, a]
  {
    assert |s| == |multiset(s)| == 2;
    assert s == [s[0], s[1]];
    assert multiset(s)[s[0]] >= 1 && multiset(s)[s[1]] >= 1;
    assert multiset([a, b]) == multiset{a, b} && multiset(s) == multiset{s[0], s[1]};
    assert s[0] in multiset{a, b} && s[1] in multiset{a, b};
    if s[0] == a {
      assert multiset{s[0], s[1]} - multiset{a} == multiset{s[1]} && multiset{a, b} - multiset{a} == multiset{b};
      assert s[1] in multiset{b};
    } else {
      assert multiset{s[0], s[1]} - multiset{b} == multiset{s[1]} && multiset{a, b} - multiset{b} == multiset{a};
      assert s[1] in multiset{a};
    }
  }

  /** `check_jev_egress_ingress`. */
  method CheckJevEgressIngress(p: Policy, apiCidr: string) returns (problems: seq<IngressProblem>)
    ensures problems == [] <==>
              MetadataRight(p, PodsNamed("decision-api-egress")) && multiset(p.rules) == multiset(JevRules(apiCidr))
  {
    problems := MetadataProblems(p, PodsNamed("decision-api-egress")) + BlockProblems(p.rules, apiCidr);
    var exact := ExactRules(p.rules, JevRules(apiCidr));
    problems := problems + exact;
    if multiset(p.rules) == multiset(JevRules(apiCidr)) {
      RightRulesHaveOneBlock(p.rules, apiCidr);
    }
  }

  /** The Jev check's empty answer fixes the traffic: judging pods and swarm-api's range on
      TCP 8443, nothing else. */
  lemma {:induction false} JevAdmitsExactly<Source>(m: Matches<Source>, rules: seq<Rule>, apiCidr: string,
                                                    source: Source, protocol: string, port: int)
    requires multiset(rules) == multiset(JevRules(apiCidr))
    ensures Lets(m, rules, source, protocol, port) <==>
              protocol == "TCP" && port == 8443 && (m(JEV_JUDGE_PEER, source) || m(ApiPeer(apiCidr), source))
  {
    var expected := JevRules(apiCidr);
    SingleLets(m, JEV_JUDGE_PEER, 8443, source, protocol, port);
    SingleLets(m, ApiPeer(apiCidr), 8443, source, protocol, port);
    assert RuleLets(m, expected[0], source, protocol, port) || RuleLets(m, expected[1], source, protocol, port)
           <==> Lets(m, expected, source, protocol, port);
    if Lets(m, rules, source, protocol, port) {
      OrderDoesNotMatter(m, rules, expected, source, protocol, port);
    }
    if Lets(m, expected, source, protocol, port) {
      OrderDoesNotMatter(m, expected, rules, source, protocol, port);
    }
  }

  // ----- whom the peers are -------------------------------------------------------------

  /** A pod by its labels and its namespace's, `ours` when that is the policy's own. */
  datatype Pod = Pod(ours: bool, namespaceLabels: map<string, string>, labels: map<string, string>)

  /** Where traffic comes from: an address, and the pod behind it if it is one's. */
  datatype Source = Source(address: Address, pod: Option<Pod>)

  predicate Labelled(labels: map<string, string>, key: string, value: string) {
    key in labels && labels[key] == value
  }

  /** The expressions `namespace_selector_matches` knows; any other is passed over. */
  predicate ExpressionHolds(e: Expression, labels: map<string, string>) {
    (e.operator == "Exists" ==> e.key in labels)
    && (e.operator == "DoesNotExist" ==> e.key !in labels)
    && (e.operator == "In" ==> e.key in labels && labels[e.key] in OrEmpty(e.values))
    && (e.operator == "NotIn" ==> e.key !in labels || labels[e.key] !in OrEmpty(e.values))
  }

  predicate SelectorMatches(s: Selector, labels: map<string, string>) {
    (s.matchLabels.Some? ==> forall k :: k in s.matchLabels.value ==> Labelled(labels, k, s.matchLabels.value[k]))
    && forall i :: 0 <= i < |OrEmpty(s.matchExpressions)| ==> ExpressionHolds(OrEmpty(s.matchExpressions)[i], labels)
  }

  /** What a peer selects: a range's addresses, or pods by namespace and label, of the policy's own
      namespace when none is named. */
  predicate PeerSelects(ip: Ip, peer: Peer, s: Source) {
    if peer.ipBlock.Some? then BlockAdmits(ip, peer.ipBlock.value, s.address)
    else
      s.pod.Some? && (peer.namespaceSelector.Some? || peer.podSelector.Some?)
      && (if peer.namespaceSelector.Some? then SelectorMatches(peer.namespaceSelector.value, s.pod.value.namespaceLabels)
          else s.pod.value.ours)
      && (peer.podSelector.Some? ==> SelectorMatches(peer.podSelector.value, s.pod.value.labels))
  }

  function SelectedBy(ip: Ip): Matches<Source> {
    (peer, s) => PeerSelects(ip, peer, s)
  }

  /** A pod of a namespace a tenant render made. */
  predicate OfTenant(s: Source) {
    s.pod.Some? && Labelled(s.pod.value.namespaceLabels, "app.kubernetes.io/part-of", "swarm")
    && "swarm-tenant" in s.pod.value.namespaceLabels
  }

  predicate PodLabelled(s: Source, key: string, value: string) {
    s.pod.Some? && Labelled(s.pod.value.labels, key, value)
  }

  predicate InRange(ip: Ip, cidr: string, s: Source) {
    ip.network(cidr).Some? && ip.network(cidr).value.Contains(s.address)
  }

  lemma {:induction false} OneLabel(key: string, value: string, labels: map<string, string>)
    ensures SelectorMatches(Labels(key, value), labels) <==> Labelled(labels, key, value)
  {
    assert key in Labels(key, value).matchLabels.value;
  }

  lemma {:induction false} TenantNamespace(labels: map<string, string>)
    ensures SelectorMatches(TENANT_NAMESPACE, labels)
       <==> Labelled(labels, "app.kubernetes.io/part-of", "swarm") && "swarm-tenant" in labels
  {
    assert "app.kubernetes.io/part-of" in TENANT_NAMESPACE.matchLabels.value;
    var es := OrEmpty(TENANT_NAMESPACE.matchExpressions);
    assert |es| == 1 && (ExpressionHolds(es[0], labels) <==> "swarm-tenant" in labels);
  }

  /** Whom each peer of the three policies selects. */
  lemma {:induction false} PeersSelect(ip: Ip, s: Source, apiCidr: string)
    ensures PeerSelects(ip, TENANT_POD_PEER, s) <==> OfTenant(s) && PodLabelled(s, "swarm-live", "enabled")
    ensures PeerSelects(ip, GRAPH_TENANT_PEER, s) <==> OfTenant(s)
    ensures PeerSelects(ip, GRAPH_PEER_PODS, s)
       <==> s.pod.Some? && s.pod.value.ours && PodLabelled(s, "app.kubernetes.io/name", "swarm-graph")
    ensures PeerSelects(ip, JEV_JUDGE_PEER, s) <==> OfTenant(s) && PodLabelled(s, "swarm-judge", "internal")
    ensures PeerSelects(ip, ApiPeer(apiCidr), s) <==> InRange(ip, apiCidr, s)
  {
    if s.pod.Some? {
      TenantNamespace(s.pod.value.namespaceLabels);
      OneLabel("swarm-live", "enabled", s.pod.value.labels);
      OneLabel("app.kubernetes.io/name", "swarm-graph", s.pod.value.labels);
      OneLabel("swarm-judge", "internal", s.pod.value.labels);
    }
  }

  /** The relay lets in the live-enabled pods of tenants and swarm-api's range, on TCP 8080. */
  lemma {:induction false} RelayTraffic(ip: Ip, rules: seq<Rule>, apiCidr: string, s: Source, protocol: string, port: int)
    requires AdmitOnly(rules, [TENANT_POD_PEER, ApiPeer(apiCidr)])
    requires Names(rules, TENANT_POD_PEER) && Names(rules, ApiPeer(apiCidr))
    ensures Lets(SelectedBy(ip), rules, s, protocol, port)
       <==> protocol == "TCP" && port == 8080
            && ((OfTenant(s) && PodLabelled(s, "swarm-live", "enabled")) || InRange(ip, apiCidr, s))
  {
    RelayAdmitsExactly(SelectedBy(ip), rules, apiCidr, s, protocol, port);
    PeersSelect(ip, s, apiCidr);
  }

  /** The graph service lets in any pod of a tenant on TCP 8080, and swarm-api's range and its own
      pods on TCP 8081. */
  lemma {:induction false} GraphTraffic(ip: Ip, rules: seq<Rule>, apiCidr: string, s: Source, protocol: string, port: int)
    requires multiset(rules) == multiset(GraphRules(apiCidr))
    ensures Lets(SelectedBy(ip), rules, s, protocol, port)
       <==> protocol == "TCP"
            && ((port == 8080 && OfTenant(s))
                || (port == 8081
                    && (InRange(ip, apiCidr, s)
                        || (s.pod.Some? && s.pod.value.ours && PodLabelled(s, "app.kubernetes.io/name", "swarm-graph")))))
  {
    GraphAdmitsExactly(SelectedBy(ip), rules, apiCidr, s, protocol, port);
    PeersSelect(ip, s, apiCidr);
  }

  /** The forwarder lets in the judging pods of tenants and swarm-api's range, on TCP 8443. */
  lemma {:induction false} JevTraffic(ip: Ip, rules: seq<Rule>, apiCidr: string, s: Source, protocol: string, port: int)
    requires multiset(rules) == multiset(JevRules(apiCidr))
    ensures Lets(SelectedBy(ip), rules, s, protocol, port)
       <==> protocol == "TCP" && port == 8443
            && ((OfTenant(s) && PodLabelled(s, "swarm-judge", "internal")) || InRange(ip, apiCidr, s))
  {
    JevAdmitsExactly(SelectedBy(ip), rules, apiCidr, s, protocol, port);
    PeersSelect(ip, s, apiCidr);
  }

  /** The right metadata: a policy of swarm-system over the pods of that name, for ingress. */
  lemma {:induction false} MetadataExactly(p: Policy, name: string, labels: map<string, string>)
    requires MetadataRight(p, PodsNamed(name))
    ensures p.namespace == Some("swarm-system") && p.policyTypes == Some(["Ingress"])
    ensures p.podSelector.Some? && (SelectorMatches(p.podSelector.value, labels) <==> Labelled(labels, "app.kubernetes.io/name", name))
  {
    OneLabel("app.kubernetes.io/name", name, labels);
  }

  /** And the relay's is rendered for swarm-api's range. */
  lemma {:induction false} RecordsExactly(p: Policy, apiCidr: string)
    ensures Records(p, apiCidr) <==> Lookup(p.annotations, "swarm.saga.xyz/swarm-api-egress-cidr") == Some(apiCidr)
  {
  }
}
