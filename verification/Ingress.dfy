/**
 The route filter: which peer may announce which prefix.

 A specification per cluster is compiled to named sets and to statements that
 refer to them by name, with rejection as the default. `Accepts` reads the
 compiled policy through the names; it must mean what the specification means.
 */
module Ingress {
  import opened Ipv4
  import opened Naming
  import opened Config
  import opened Tables
  import opened Networks
  import opened Controller
  import opened Addresses

  datatype ClusterIngress = ClusterIngress(id: string, prefixes: seq<Cidr>, nodes: seq<nat>)
  datatype IngressSpec = IngressSpec(clusters: seq<ClusterIngress>, hypervisors: seq<nat>)

  datatype Prefix = Prefix(block: Cidr, minLen: nat, maxLen: nat)
  datatype DefinedSet = PrefixSet(name: string, prefixes: seq<Prefix>) | NeighborSet(name: string, addresses: seq<nat>)
  datatype Statement = Statement(name: string, neighbors: string, prefixes: Option<string>)
  datatype Policy = Policy(sets: seq<DefinedSet>, statements: seq<Statement>)

  // --- Meaning of a specification ---

  /** Every address of the route lies in the block. */
  ghost predicate Inside(route: Cidr, block: Cidr)
    requires route.Valid() && block.Valid()
  {
    forall x :: route.Contains(x) ==> block.Contains(x)
  }

  ghost predicate Allows(c: ClusterIngress, route: Cidr)
    requires route.Valid()
  {
    exists p <- c.prefixes :: p.Valid() && Inside(route, p)
  }

  /** A hypervisor may announce anything, a node what its cluster is allowed. */
  ghost predicate SpecAccepts(spec: IngressSpec, peer: nat, route: Cidr)
    requires route.Valid()
  {
    peer in spec.hypervisors || exists c <- spec.clusters :: peer in c.nodes && Allows(c, route)
  }

  // --- Meaning of a policy ---

  predicate PrefixMatches(p: Prefix, route: Cidr)
    requires route.Valid()
  {
    p.block.Valid() && p.block.Contains(route.Network()) && p.minLen <= route.len <= p.maxLen
  }

  ghost predicate NamesPeer(sets: seq<DefinedSet>, name: string, peer: nat) {
    exists d <- sets :: d.NeighborSet? && d.name == name && peer in d.addresses
  }

  ghost predicate NamesRoute(sets: seq<DefinedSet>, name: string, route: Cidr)
    requires route.Valid()
  {
    exists d <- sets :: d.PrefixSet? && d.name == name && SomeMatches(d.prefixes, route)
  }

  ghost predicate SomeMatches(prefixes: seq<Prefix>, route: Cidr)
    requires route.Valid()
  {
    exists p <- prefixes :: PrefixMatches(p, route)
  }

  /** Some statement accepts; a route that none accepts is rejected. */
  ghost predicate Accepts(policy: Policy, peer: nat, route: Cidr)
    requires route.Valid()
  {
    exists st <- policy.statements ::
      NamesPeer(policy.sets, st.neighbors, peer) && (st.prefixes.Some? ==> NamesRoute(policy.sets, st.prefixes.value, route))
  }

  // --- Compilation ---

  function PrefixesName(id: string): string { "cluster-" + id + "-prefixes" }
  function NodesName(id: string): string { "cluster-" + id + "-nodes" }
  const HYPERVISORS := "hypervisors"

  /** Announcements of the block itself and of anything inside it, down to single addresses. */
  function MaskRange(block: Cidr): Prefix { Prefix(block, block.len, 32) }

  function MaskRanges(blocks: seq<Cidr>): (prefixes: seq<Prefix>)
    ensures |prefixes| == |blocks| && forall i :: 0 <= i < |blocks| ==> prefixes[i] == MaskRange(blocks[i])
  {
    if blocks == [] then [] else MaskRanges(blocks[..|blocks| - 1]) + [MaskRange(blocks[|blocks| - 1])]
  }

  function PrefixSetOf(c: ClusterIngress): DefinedSet { PrefixSet(PrefixesName(c.id), MaskRanges(c.prefixes)) }
  function NodeSetOf(c: ClusterIngress): DefinedSet { NeighborSet(NodesName(c.id), c.nodes) }
  function StatementOf(c: ClusterIngress): Statement {
    Statement("cluster-" + c.id + "-import", NodesName(c.id), Some(PrefixesName(c.id)))
  }

  predicate Skipped(c: ClusterIngress) { c.prefixes == [] || c.nodes == [] }

  predicate Defines(c: ClusterIngress, d: DefinedSet) { !Skipped(c) && (d == PrefixSetOf(c) || d == NodeSetOf(c)) }

  predicate States(c: ClusterIngress, st: Statement) { !Skipped(c) && st == StatementOf(c) }

  /** The statements and sets are those of the clusters with prefixes and nodes, and the hypervisors' if there are any. */
  ghost predicate Compiled(spec: IngressSpec, policy: Policy) {
    && (forall st :: st in policy.statements <==>
          (exists c <- spec.clusters :: States(c, st))
          || (spec.hypervisors != [] && st == Statement("hypervisor-import", HYPERVISORS, None)))
    && (forall d :: d in policy.sets <==>
          (exists c <- spec.clusters :: Defines(c, d))
          || (spec.hypervisors != [] && d == NeighborSet(HYPERVISORS, spec.hypervisors)))
  }

  ghost predicate WellFormed(c: ClusterIngress) {
    forall p <- c.prefixes :: p.Valid()
  }

  /** Every block that is compiled parses. */
  ghost predicate SpecParses(spec: IngressSpec) {
    forall c <- spec.clusters :: !Skipped(c) ==> WellFormed(c)
  }

  /** Fails on the first block that does not parse. */
  method PrefixDefinedSet(name: string, blocks: seq<Cidr>) returns (r: Option<DefinedSet>)
    ensures r.Some? <==> forall p <- blocks :: p.Valid()
    ensures r.Some? ==> r.value == PrefixSet(name, MaskRanges(blocks))
  {
    var prefixes: seq<Prefix> := [];
    for i := 0 to |blocks|
      invariant forall j :: 0 <= j < i ==> blocks[j].Valid()
      invariant prefixes == MaskRanges(blocks[..i])
    {
      if !blocks[i].Valid() { return None; }
      assert blocks[..i + 1][..i] == blocks[..i];
      prefixes := prefixes + [MaskRange(blocks[i])];
    }
    assert blocks[..|blocks|] == blocks;
    r := Some(PrefixSet(name, prefixes));
  }

  method ReconcileIngressPolicy(spec: IngressSpec) returns (r: Option<Policy>)
    ensures r.Some? <==> SpecParses(spec)
    ensures r.Some? ==> Compiled(spec, r.value)
  {
    var sets: seq<DefinedSet> := [];
    var statements: seq<Statement> := [];
    for i := 0 to |spec.clusters|
      invariant forall j :: 0 <= j < i && !Skipped(spec.clusters[j]) ==> WellFormed(spec.clusters[j])
      invariant forall st :: st in statements <==> exists j :: 0 <= j < i && States(spec.clusters[j], st)
      invariant forall d :: d in sets <==> exists j :: 0 <= j < i && Defines(spec.clusters[j], d)
    {
      var c := spec.clusters[i];
      if !Skipped(c) {
        var prefixes := PrefixDefinedSet(PrefixesName(c.id), c.prefixes);
        if prefixes.None? { return None; }
        sets := sets + [prefixes.value, NodeSetOf(c)];
        statements := statements + [StatementOf(c)];
      }
    }
    if spec.hypervisors != [] {
      sets := sets + [NeighborSet(HYPERVISORS, spec.hypervisors)];
      statements := statements + [Statement("hypervisor-import", HYPERVISORS, None)];
    }
    r := Some(Policy(sets, statements));
  }

  // --- The compiled policy means the specification ---

  ghost predicate DistinctIds(spec: IngressSpec) {
    forall c <- spec.clusters, d <- spec.clusters :: c.id == d.id ==> c == d
  }

  lemma NamesAreDistinct(a: string, b: string)
    ensures NodesName(a) == NodesName(b) ==> a == b
    ensures PrefixesName(a) == PrefixesName(b) ==> a == b
    ensures NodesName(a) != HYPERVISORS
  {
    assert NodesName(a)[8..|NodesName(a)| - 6] == a && NodesName(b)[8..|NodesName(b)| - 6] == b;
    assert PrefixesName(a)[8..|PrefixesName(a)| - 9] == a && PrefixesName(b)[8..|PrefixesName(b)| - 9] == b;
    assert NodesName(a)[0] == 'c';
  }

  /** Length in the mask range and network address inside: the whole route is inside. */
  lemma MaskRangeMatches(block: Cidr, route: Cidr)
    requires block.Valid() && route.Valid()
    ensures PrefixMatches(MaskRange(block), route) <==> Inside(route, block)
  {
    BlockBounds(route);
    if PrefixMatches(MaskRange(block), route) {
      WiderContains(block, route, route.Network());
    }
    if Inside(route, block) {
      assert block.Contains(route.Network()) && block.Contains(route.Broadcast());
      Pow2Order(32 - route.len, 32 - block.len);
    }
  }

  lemma SetAllows(c: ClusterIngress, route: Cidr)
    requires WellFormed(c) && route.Valid()
    ensures SomeMatches(MaskRanges(c.prefixes), route) <==> Allows(c, route)
  {
    var ranges := MaskRanges(c.prefixes);
    forall i | 0 <= i < |ranges| ensures ranges[i] in ranges && c.prefixes[i] in c.prefixes {}
    forall i | 0 <= i < |ranges| ensures PrefixMatches(ranges[i], route) <==> Inside(route, c.prefixes[i]) {
      MaskRangeMatches(c.prefixes[i], route);
    }
  }

  /** A cluster's names lead to its own nodes and prefixes only. */
  lemma NamesLeadHome(spec: IngressSpec, policy: Policy, c: ClusterIngress, peer: nat, route: Cidr)
    requires Compiled(spec, policy) && DistinctIds(spec) && c in spec.clusters && !Skipped(c) && WellFormed(c) && route.Valid()
    ensures NamesPeer(policy.sets, NodesName(c.id), peer) <==> peer in c.nodes
    ensures NamesRoute(policy.sets, PrefixesName(c.id), route) <==> Allows(c, route)
  {
    assert Defines(c, PrefixSetOf(c)) && Defines(c, NodeSetOf(c));
    assert PrefixSetOf(c) in policy.sets && NodeSetOf(c) in policy.sets;
    SetAllows(c, route);
    forall d <- policy.sets
      ensures d.NeighborSet? && d.name == NodesName(c.id) ==> d == NodeSetOf(c)
      ensures d.PrefixSet? && d.name == PrefixesName(c.id) ==> d == PrefixSetOf(c)
    {
      NamesAreDistinct(c.id, c.id);
      if e :| e in spec.clusters && Defines(e, d) { NamesAreDistinct(c.id, e.id); }
    }
  }

  lemma HypervisorsNamed(spec: IngressSpec, policy: Policy, peer: nat)
    requires Compiled(spec, policy)
    ensures NamesPeer(policy.sets, HYPERVISORS, peer) <==> peer in spec.hypervisors
  {
    if spec.hypervisors != [] { assert NeighborSet(HYPERVISORS, spec.hypervisors) in policy.sets; }
    forall d <- policy.sets ensures d.NeighborSet? && d.name == HYPERVISORS ==> d == NeighborSet(HYPERVISORS, spec.hypervisors) {
      if e :| e in spec.clusters && Defines(e, d) { NamesAreDistinct(e.id, e.id); }
    }
  }

  /** For every peer and every route, the compiled policy accepts exactly what the specification accepts. */
  lemma PolicyMeansSpec(spec: IngressSpec, policy: Policy, peer: nat, route: Cidr)
    requires Compiled(spec, policy) && DistinctIds(spec) && SpecParses(spec) && route.Valid()
    ensures Accepts(policy, peer, route) <==> SpecAccepts(spec, peer, route)
  {
    HypervisorsNamed(spec, policy, peer);
    forall c <- spec.clusters | !Skipped(c)
      ensures NamesPeer(policy.sets, NodesName(c.id), peer) <==> peer in c.nodes
      ensures NamesRoute(policy.sets, PrefixesName(c.id), route) <==> Allows(c, route)
    {
      NamesLeadHome(spec, policy, c, peer, route);
    }
    if SpecAccepts(spec, peer, route) {
      if peer in spec.hypervisors {
        assert Statement("hypervisor-import", HYPERVISORS, None) in policy.statements;
      } else {
        var c :| c in spec.clusters && peer in c.nodes && Allows(c, route);
        assert States(c, StatementOf(c)) && StatementOf(c) in policy.statements;
      }
    }
    if Accepts(policy, peer, route) {
      var st :| st in policy.statements && NamesPeer(policy.sets, st.neighbors, peer)
                && (st.prefixes.Some? ==> NamesRoute(policy.sets, st.prefixes.value, route));
      if c :| c in spec.clusters && States(c, st) { assert peer in c.nodes && Allows(c, route); }
    }
  }

  // --- The specification the controller computes ---

  /** Its block, its service block, and the endpoint of a public cluster. */
  function Allowed(row: Cluster): seq<Cidr> {
    [row.net.cidr] + (if row.block.Some? then [row.block.value] else []) + (if row.public then [Cidr(row.endpoint, 32)] else [])
  }

  /** `nodes` lists the addresses of the cluster's VMs among `vms`. */
  ghost predicate NodesFrom(s: Tables, vms: set<string>, c: string, nodes: seq<nat>)
    requires vms <= s.vms.Keys
  {
    forall a :: a in nodes <==> exists v :: v in vms && s.vms[v].cluster == c && s.vms[v].ip == a
  }

  ghost predicate EntryOf(clusters: map<string, Cluster>, s: Tables, vms: set<string>, c: string, e: ClusterIngress)
    requires vms <= s.vms.Keys
  {
    c in clusters && e.id == c && e.prefixes == Allowed(clusters[c]) && NodesFrom(s, vms, c, e.nodes)
  }

  /**
   One entry per cluster read, with what it may announce and the addresses of
   its VMs; all hosts read as hypervisors. The hosts, the clusters and the VMs
   are read one after the other, so they are those of three states.
   */
  ghost predicate SpecOf(hostsAt: Tables, clustersAt: Tables, vmsAt: Tables, spec: IngressSpec) {
    && DistinctIds(spec)
    && (forall a :: a in spec.hypervisors <==> a in HostAddresses(hostsAt))
    && (forall e <- spec.clusters :: EntryOf(clustersAt.clusters, vmsAt, vmsAt.vms.Keys, e.id, e))
    && (forall c :: c in clustersAt.clusters ==> exists e <- spec.clusters :: e.id == c)
  }

  method Listed(addresses: set<nat>) returns (list: seq<nat>)
    ensures forall a :: a in list <==> a in addresses
  {
    list := [];
    var rest := addresses;
    while rest != {}
      invariant forall a :: a in addresses <==> a in rest || a in list
      decreases |rest|
    {
      var a :| a in rest;
      list, rest := list + [a], rest - {a};
    }
  }

  method AddNodes(clusters: map<string, Cluster>, s: Tables, empty: map<string, ClusterIngress>)
    returns (entries: map<string, ClusterIngress>)
    requires empty.Keys == clusters.Keys && forall c :: c in empty ==> EntryOf(clusters, s, {}, c, empty[c])
    ensures entries.Keys == clusters.Keys && forall c :: c in entries ==> EntryOf(clusters, s, s.vms.Keys, c, entries[c])
  {
    entries := empty;
    var done: set<string> := {};
    while done != s.vms.Keys
      invariant done <= s.vms.Keys && entries.Keys == clusters.Keys
      invariant forall c :: c in entries ==> EntryOf(clusters, s, done, c, entries[c])
      decreases |s.vms.Keys - done|
    {
      var v :| v in s.vms.Keys - done;
      var vm := s.vms[v];
      ghost var before := entries;
      if vm.cluster in entries {
        var e := entries[vm.cluster];
        entries := entries[vm.cluster := e.(nodes := e.nodes + [vm.ip])];
      }
      forall c | c in entries ensures EntryOf(clusters, s, done + {v}, c, entries[c]) {
        OneMoreNode(clusters, s, done, v, c, before[c], entries[c]);
      }
      done := done + {v};
    }
  }

  lemma OneMoreNode(clusters: map<string, Cluster>, s: Tables, done: set<string>, v: string, c: string,
                    e: ClusterIngress, f: ClusterIngress)
    requires done <= s.vms.Keys && v in s.vms && EntryOf(clusters, s, done, c, e)
    requires f == if s.vms[v].cluster == c then e.(nodes := e.nodes + [s.vms[v].ip]) else e
    ensures EntryOf(clusters, s, done + {v}, c, f)
  {
    forall a ensures a in f.nodes <==> exists w :: w in done + {v} && s.vms[w].cluster == c && s.vms[w].ip == a {
      if w :| w in done && s.vms[w].cluster == c && s.vms[w].ip == a { assert w in done + {v} && a in e.nodes; }
      if s.vms[v].cluster == c && s.vms[v].ip == a { assert v in done + {v}; }
    }
  }

  method Values(entries: map<string, ClusterIngress>) returns (list: seq<ClusterIngress>)
    requires forall c :: c in entries ==> entries[c].id == c
    ensures forall e :: e in list <==> e.id in entries && entries[e.id] == e
  {
    list := [];
    var rest := entries.Keys;
    while rest != {}
      invariant rest <= entries.Keys
      invariant forall e :: e in list <==> e.id in entries && entries[e.id] == e && e.id !in rest
      decreases |rest|
    {
      var c :| c in rest;
      list, rest := list + [entries[c]], rest - {c};
    }
  }

  method ComputeIngressPolicy(hostsAt: Tables, clustersAt: Tables, vmsAt: Tables) returns (spec: IngressSpec)
    ensures SpecOf(hostsAt, clustersAt, vmsAt, spec)
  {
    var rows := clustersAt.clusters;
    var hypervisors := Listed(HostAddresses(hostsAt));
    var empty := map c | c in rows :: ClusterIngress(c, Allowed(rows[c]), []);
    var entries := AddNodes(rows, vmsAt, empty);
    var clusters := Values(entries);
    spec := IngressSpec(clusters, hypervisors);
    forall c | c in rows ensures exists e <- spec.clusters :: e.id == c {
      assert entries[c] in spec.clusters;
    }
  }

  // --- Isolation ---

  /** The peer's own cluster is the only one that lists its address. */
  lemma NodeListedAtHome(cfg: NetworkConfig, ratio: Ratio, tr: seq<Tables>, steps: seq<Step>, i: nat,
                         v: string, w: string)
    requires Valid(cfg) && ratio.Valid() && ProperRun(cfg, ratio, tr, steps) && i < |tr|
    requires v in tr[i].vms && w in tr[i].vms && tr[i].vms[v].ip == tr[i].vms[w].ip
    ensures tr[i].vms[v].cluster == tr[i].vms[w].cluster
  {
    var s, c, d, ip := tr[i], tr[i].vms[v].cluster, tr[i].vms[w].cluster, tr[i].vms[v].ip;
    VmsStayHome(cfg, ratio, tr, steps, i, v);
    VmsStayHome(cfg, ratio, tr, steps, i, w);
    assert Paired(cfg, s) by { RunKeepsPairs(cfg, ratio, tr, steps, i); }
    ClusterInSupernet(cfg, s, c, ip);
    ClusterInSupernet(cfg, s, d, ip);
    if c != d { SpacesStayApart(cfg, ratio, tr, steps, i, c, d, ip); }
  }

  /** All of the route is in the cluster's block, all of it in its service block, or it is the public endpoint alone. */
  ghost predicate Covers(row: Cluster, route: Cidr)
    requires route.Valid()
  {
    || (row.net.cidr.Valid() && forall x :: route.Contains(x) ==> row.net.cidr.Contains(x))
    || (row.block.Some? && row.block.value.Valid() && forall x :: route.Contains(x) ==> row.block.value.Contains(x))
    || (row.public && forall x :: route.Contains(x) ==> x == row.endpoint)
  }

  lemma EndpointAlone(a: nat, route: Cidr)
    requires route.Valid()
    ensures Cidr(a, 32).Valid() && Inside(route, Cidr(a, 32)) <==> forall x :: route.Contains(x) ==> x == a
  {
    BlockBounds(route);
    assert route.Contains(route.Network()) && route.Network() < ADDRESS_END;
    if Cidr(a, 32).Valid() {
      BlockBounds(Cidr(a, 32));
      forall x | Cidr(a, 32).Contains(x) ensures x == a { SingleAddress(Cidr(a, 32), x); }
      assert Cidr(a, 32).Contains(a);
    }
  }

  lemma AllowedIsCovered(row: Cluster, route: Cidr)
    requires route.Valid()
    ensures (exists p <- Allowed(row) :: p.Valid() && Inside(route, p)) <==> Covers(row, route)
  {
    EndpointAlone(row.endpoint, route);
    assert row.net.cidr in Allowed(row);
    if row.block.Some? { assert row.block.value in Allowed(row); }
    if row.public { assert Cidr(row.endpoint, 32) in Allowed(row); }
  }

  lemma CoveredIsSpace(s: Tables, c: string, route: Cidr, x: nat)
    requires c in s.clusters && route.Valid() && route.Contains(x) && Covers(s.clusters[c], route)
    ensures InSpace(s, c, x)
  {
  }

  lemma SingleAddress(p: Cidr, x: nat)
    requires p.Valid() && p.len == 32 && p.Contains(x)
    ensures x == p.addr
  {
    BlockBounds(p);
    assert p.Size() == 1;
  }

  /** What a cluster may announce does not change while it is there. */
  lemma SpacePersists(cfg: NetworkConfig, ratio: Ratio, tr: seq<Tables>, steps: seq<Step>, j: nat, k: nat, c: string, x: nat)
    requires Carvable(cfg) && ratio.Valid() && Run(cfg, ratio, tr, steps) && j <= k < |tr|
    requires c in tr[j].clusters && c in tr[k].clusters && InSpace(tr[j], c, x)
    ensures InSpace(tr[k], c, x)
  {
    RowsPersist(cfg, ratio, tr, steps, j, k, c);
  }

  lemma PublicEndpointParses(cfg: NetworkConfig, ratio: Ratio, tr: seq<Tables>, steps: seq<Step>, j: nat, c: string)
    requires Valid(cfg) && ratio.Valid() && ProperRun(cfg, ratio, tr, steps) && j < |tr| && c in tr[j].clusters
    requires tr[j].clusters[c].public
    ensures Cidr(tr[j].clusters[c].endpoint, 32).Valid()
  {
    var a := tr[j].clusters[c].endpoint;
    ClustersStayProvisioned(cfg, ratio, tr, steps, j, c);
    HeldAddressesAreInScope(cfg, ratio, tr, steps, j, a);
    ValidPoolsAreApart(cfg);
    var p :| p in cfg.pools && InPool(p, a);
    PoolRange(p);
  }

  lemma BlockParses(cfg: NetworkConfig, ratio: Ratio, tr: seq<Tables>, steps: seq<Step>, j: nat, c: string)
    requires Valid(cfg) && ratio.Valid() && ProperRun(cfg, ratio, tr, steps) && j < |tr| && c in tr[j].clusters
    ensures tr[j].clusters[c].net.cidr.Valid() && (tr[j].clusters[c].block.Some? ==> tr[j].clusters[c].block.value.Valid())
  {
    ClustersStayProvisioned(cfg, ratio, tr, steps, j, c);
    assert Paired(cfg, tr[j]) by { RunKeepsPairs(cfg, ratio, tr, steps, j); }
    ClusterInSupernet(cfg, tr[j], c, 0);
  }

  /** What is computed from states of a run always compiles. */
  lemma PolicyCompiles(cfg: NetworkConfig, ratio: Ratio, tr: seq<Tables>, steps: seq<Step>, i: nat, j: nat, k: nat,
                       spec: IngressSpec)
    requires Valid(cfg) && ratio.Valid() && ProperRun(cfg, ratio, tr, steps) && i <= j <= k < |tr|
    requires SpecOf(tr[i], tr[j], tr[k], spec)
    ensures SpecParses(spec)
  {
    forall e <- spec.clusters ensures WellFormed(e) {
      assert EntryOf(tr[j].clusters, tr[k], tr[k].vms.Keys, e.id, e);
      BlockParses(cfg, ratio, tr, steps, j, e.id);
      if tr[j].clusters[e.id].public { PublicEndpointParses(cfg, ratio, tr, steps, j, e.id); }
    }
  }

  /**
   What the computed policy accepts, on the rows it was computed from: anything
   from a host; from any other peer, a route that one of the clusters read
   covers and that has a VM at the peer's address.
   */
  lemma PolicyAcceptsIff(hostsAt: Tables, clustersAt: Tables, vmsAt: Tables, spec: IngressSpec, policy: Policy,
                         peer: nat, route: Cidr)
    requires SpecOf(hostsAt, clustersAt, vmsAt, spec) && SpecParses(spec) && Compiled(spec, policy) && route.Valid()
    ensures Accepts(policy, peer, route) <==>
      || HostHas(hostsAt, peer)
      || exists v :: v in vmsAt.vms && vmsAt.vms[v].ip == peer && vmsAt.vms[v].cluster in clustersAt.clusters
                     && Covers(clustersAt.clusters[vmsAt.vms[v].cluster], route)
  {
    PolicyMeansSpec(spec, policy, peer, route);
    assert peer in spec.hypervisors <==> HostHas(hostsAt, peer);
    if e :| e in spec.clusters && peer in e.nodes && Allows(e, route) {
      assert EntryOf(clustersAt.clusters, vmsAt, vmsAt.vms.Keys, e.id, e);
      AllowedIsCovered(clustersAt.clusters[e.id], route);
    }
    if v :| v in vmsAt.vms && vmsAt.vms[v].ip == peer && vmsAt.vms[v].cluster in clustersAt.clusters
            && Covers(clustersAt.clusters[vmsAt.vms[v].cluster], route) {
      var c := vmsAt.vms[v].cluster;
      var e :| e in spec.clusters && e.id == c;
      assert EntryOf(clustersAt.clusters, vmsAt, vmsAt.vms.Keys, c, e) && peer in e.nodes;
      AllowedIsCovered(clustersAt.clusters[c], route);
    }
  }

  /**
   Hosts, clusters and VMs read in three states of a run, one after the other:
   under the policy computed from them, a VM whose address is no host's gets a
   route accepted exactly when its own cluster was read and covers the route.
   */
  lemma NodeRoutesIff(cfg: NetworkConfig, ratio: Ratio, tr: seq<Tables>, steps: seq<Step>, i: nat, j: nat, k: nat,
                      spec: IngressSpec, policy: Policy, v: string, route: Cidr)
    requires Valid(cfg) && ratio.Valid() && ProperRun(cfg, ratio, tr, steps) && i <= j <= k < |tr|
    requires SpecOf(tr[i], tr[j], tr[k], spec) && Compiled(spec, policy)
    requires v in tr[k].vms && !HostHas(tr[i], tr[k].vms[v].ip) && route.Valid()
    ensures var c := tr[k].vms[v].cluster;
      Accepts(policy, tr[k].vms[v].ip, route) <==> c in tr[j].clusters && Covers(tr[j].clusters[c], route)
  {
    var s, ip := tr[k], tr[k].vms[v].ip;
    PolicyCompiles(cfg, ratio, tr, steps, i, j, k, spec);
    PolicyAcceptsIff(tr[i], tr[j], s, spec, policy, ip, route);
    forall w | w in s.vms && s.vms[w].ip == ip ensures s.vms[w].cluster == s.vms[v].cluster {
      NodeListedAtHome(cfg, ratio, tr, steps, k, v, w);
    }
  }

  /** So the VM may announce every address of its cluster on its own. */
  lemma OwnSpaceIsAccepted(cfg: NetworkConfig, ratio: Ratio, tr: seq<Tables>, steps: seq<Step>, i: nat, j: nat, k: nat,
                           spec: IngressSpec, policy: Policy, v: string, x: nat)
    requires Valid(cfg) && ratio.Valid() && ProperRun(cfg, ratio, tr, steps) && i <= j <= k < |tr|
    requires SpecOf(tr[i], tr[j], tr[k], spec) && Compiled(spec, policy)
    requires v in tr[k].vms && !HostHas(tr[i], tr[k].vms[v].ip) && x < ADDRESS_END
    ensures Accepts(policy, tr[k].vms[v].ip, Cidr(x, 32)) <==>
      tr[k].vms[v].cluster in tr[j].clusters && InSpace(tr[j], tr[k].vms[v].cluster, x)
  {
    var route := Cidr(x, 32);
    NodeRoutesIff(cfg, ratio, tr, steps, i, j, k, spec, policy, v, route);
    BlockBounds(route);
    forall y | route.Contains(y) ensures y == x { SingleAddress(route, y); }
    assert route.Contains(x);
  }

  /**
   And every address of an accepted route is the VM's own cluster's, and no other
   cluster has it, neither when the clusters were read nor when the VMs were.
   */
  lemma RoutesStayHome(cfg: NetworkConfig, ratio: Ratio, tr: seq<Tables>, steps: seq<Step>, i: nat, j: nat, k: nat,
                       spec: IngressSpec, policy: Policy, v: string, route: Cidr, x: nat)
    requires Valid(cfg) && ratio.Valid() && ProperRun(cfg, ratio, tr, steps) && i <= j <= k < |tr|
    requires SpecOf(tr[i], tr[j], tr[k], spec) && Compiled(spec, policy)
    requires v in tr[k].vms && !HostHas(tr[i], tr[k].vms[v].ip)
    requires route.Valid() && Accepts(policy, tr[k].vms[v].ip, route) && route.Contains(x)
    ensures var c := tr[k].vms[v].cluster;
      && c in tr[j].clusters && InSpace(tr[j], c, x) && c in tr[k].clusters && InSpace(tr[k], c, x)
      && (forall d :: d in tr[j].clusters && d != c ==> !InSpace(tr[j], d, x))
      && (forall d :: d in tr[k].clusters && d != c ==> !InSpace(tr[k], d, x))
  {
    var c := tr[k].vms[v].cluster;
    NodeRoutesIff(cfg, ratio, tr, steps, i, j, k, spec, policy, v, route);
    CoveredIsSpace(tr[j], c, route, x);
    VmsStayHome(cfg, ratio, tr, steps, k, v);
    SpacePersists(cfg, ratio, tr, steps, j, k, c, x);
    forall d | d in tr[j].clusters && d != c ensures !InSpace(tr[j], d, x) {
      SpacesStayApart(cfg, ratio, tr, steps, j, c, d, x);
    }
    forall d | d in tr[k].clusters && d != c ensures !InSpace(tr[k], d, x) {
      SpacesStayApart(cfg, ratio, tr, steps, k, c, d, x);
    }
  }
}
