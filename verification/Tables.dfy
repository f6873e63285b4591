/**
 The controller's tables and what each transaction does to them.

 A table is a map from its primary key, or a set of rows; `Schema` states the
 constraints the database declares on them. Each write of the `Db` class is a
 function from tables to tables here. A transaction that fails rolls back, so
 its function returns the tables it was given.
 */
module Tables {
  import opened Ipv4
  import opened Naming

  // --- Rows ---

  datatype Gpu = Gpu(pci: string, group: nat)

  /** `address` is the host's underlay address, if it has reported one. */
  datatype Host = Host(name: string, cpu: nat, memory: nat, rootfsBytes: nat, dataBytes: nat, healthy: bool,
                       address: Option<nat>, inventory: seq<Gpu>, rank: int, labels: map<string, string>)

  datatype Network = Network(vni: nat, cidr: Cidr, bridgeStart: nat, bridgeEnd: nat, vmStart: nat, vmEnd: nat)

  /** `endpoint` is the apiserver address: from `pool` when public, inside the cluster block when not. */
  datatype Cluster = Cluster(name: string, net: Network, public: bool, endpoint: nat, pool: string,
                             block: Option<Cidr>)

  datatype Member = Member(ip: nat, active: bool)

  datatype VmState = Pending | Creating | Running | Stopping | Stopped | Failed | PendingTeardown

  datatype Vm = Vm(name: string, cluster: string, host: string, ip: nat, state: VmState,
                   cpu: nat, memory: nat, rootfsGib: nat, dataGib: nat)

  datatype GpuClaim = GpuClaim(vm: string, host: string, pci: string)

  datatype DiskRow = DiskRow(key: DiskKey, host: string, pool: string, device: string, cluster: string, replicated: bool)

  datatype Scope = PoolScope(name: string) | ClusterScope(id: string)
  datatype Owner = OfVm(vm: string) | OfCluster(cluster: string)
  datatype Holding = Holding(scope: Scope, owner: Owner)

  datatype Tables = Tables(
    hosts: map<string, Host>,
    clusters: map<string, Cluster>,
    members: map<(string, string), Member>,   // keyed by (cluster, host)
    vms: map<string, Vm>,
    gpus: set<GpuClaim>,
    disks: map<string, DiskRow>,              // keyed by assignment id
    ips: map<nat, Holding>)

  datatype DbError = NotFound | Conflict | Exhausted | HostUnavailable | CapacityRaced | AllocationRaced
                   | Malformed | Constraint
  datatype Result<+T> = Ok(value: T) | Err(error: DbError)

  // --- Declared constraints ---

  ghost predicate UniqueHosts(s: Tables) {
    forall g, h :: g in s.hosts && h in s.hosts && g != h ==> s.hosts[g].name != s.hosts[h].name
  }

  ghost predicate UniqueClusters(s: Tables) {
    forall a, b :: a in s.clusters && b in s.clusters && a != b ==>
      s.clusters[a].net.vni != s.clusters[b].net.vni && s.clusters[a].name != s.clusters[b].name
  }

  ghost predicate MembersRefer(s: Tables) {
    forall k :: k in s.members ==> k.0 in s.clusters && k.1 in s.hosts
  }

  ghost predicate VmsRefer(s: Tables) {
    forall v :: v in s.vms ==> s.vms[v].cluster in s.clusters && s.vms[v].host in s.hosts
  }

  ghost predicate UniqueMemberIps(s: Tables) {
    forall c, g, h :: (c, g) in s.members && (c, h) in s.members && g != h ==> s.members[(c, g)].ip != s.members[(c, h)].ip
  }

  ghost predicate UniqueVmNames(s: Tables) {
    forall v, w :: v in s.vms && w in s.vms && v != w ==>
      s.vms[v].cluster != s.vms[w].cluster || s.vms[v].name != s.vms[w].name
  }

  /** A claimed GPU belongs to one VM, and that VM is on the claim's host. */
  ghost predicate GpusRefer(s: Tables) {
    && (forall g <- s.gpus :: g.vm in s.vms && s.vms[g.vm].host == g.host)
    && (forall g, h :: g in s.gpus && h in s.gpus && g.host == h.host && g.pci == h.pci ==> g == h)
  }

  ghost predicate DisksKeyed(s: Tables) {
    forall id :: id in s.disks ==> id == AssignmentId(s.disks[id].key)
  }

  ghost predicate Schema(s: Tables) {
    && UniqueHosts(s) && UniqueClusters(s) && MembersRefer(s) && VmsRefer(s) && UniqueMemberIps(s)
    && UniqueVmNames(s) && GpusRefer(s) && DisksKeyed(s)
  }

  // --- Hosts ---

  /** A host enters or replaces its row, unless another host has its name. */
  function PutHost(s: Tables, h: string, report: Host): Tables {
    if exists g :: g in s.hosts && g != h && s.hosts[g].name == report.name then s
    else s.(hosts := s.hosts[h := report])
  }

  // --- Clusters ---

  function InsertCluster(s: Tables, id: string, row: Cluster): (Tables, Result<()>) {
    if id in s.clusters || (exists c :: c in s.clusters && s.clusters[c].name == row.name) then (s, Err(Conflict))
    else if exists c :: c in s.clusters && s.clusters[c].net.vni == row.net.vni then (s, Err(AllocationRaced))
    else (s.(clusters := s.clusters[id := row]), Ok(()))
  }

  predicate Referenced(s: Tables, c: string) {
    (exists k :: k in s.members && k.0 == c) || (exists v :: v in s.vms && s.vms[v].cluster == c)
  }

  function DeleteCluster(s: Tables, c: string): Tables {
    if Referenced(s, c) then s else s.(clusters := s.clusters - {c})
  }

  // --- Addresses ---

  function WithoutOwner(ips: map<nat, Holding>, o: Owner): map<nat, Holding> {
    map a | a in ips && ips[a].owner != o :: ips[a]
  }

  function ReleaseIps(s: Tables, o: Owner): Tables {
    s.(ips := WithoutOwner(s.ips, o))
  }

  function HostAddresses(s: Tables): set<nat> {
    set h | h in s.hosts && s.hosts[h].address.Some? :: s.hosts[h].address.value
  }

  /** A host has reported the address as its own. */
  ghost predicate HostHas(s: Tables, a: nat) {
    exists h :: h in s.hosts && s.hosts[h].address == Some(a)
  }

  function HeldIn(s: Tables, scope: Scope): set<nat> {
    set a | a in s.ips && s.ips[a].scope == scope
  }

  /** What an allocator in `scope` must not hand out. */
  function Taken(s: Tables, scope: Scope): set<nat> {
    HeldIn(s, scope) + HostAddresses(s)
  }

  /** The first address of a range, or any other in it. */
  predicate Candidate(lo: nat, hi: nat, a: nat) {
    a == lo || lo <= a <= hi
  }

  /** The candidates are `lo` and everything after it up to `hi`; `lo` is one even when `hi` is below it. */
  function LowestFree(taken: set<nat>, lo: nat, hi: nat): (r: Option<nat>)
    ensures r.Some? ==> r.value !in taken && lo <= r.value && (r.value <= hi || r.value == lo)
    ensures r.Some? ==> forall n :: lo <= n < r.value ==> n in taken
    ensures r.None? ==> lo in taken && forall n :: lo <= n <= hi ==> n in taken
    decreases hi - lo
  {
    if lo !in taken then Some(lo) else if lo < hi then LowestFree(taken, lo + 1, hi) else None
  }

  /** The allocator looks at its own scope only; the key of the table spans all scopes. */
  function AllocateFromRange(s: Tables, scope: Scope, lo: nat, hi: nat, o: Owner): (Tables, Result<nat>) {
    match LowestFree(Taken(s, scope), lo, hi)
    case None => (s, Err(Exhausted))
    case Some(n) =>
      if n in s.ips then (s, Err(Constraint)) else (s.(ips := s.ips[n := Holding(scope, o)]), Ok(n))
  }

  function ReserveSpecificIp(s: Tables, scope: Scope, ip: nat, o: Owner): (Tables, Result<()>) {
    if ip in s.ips then (s, Err(Conflict)) else (s.(ips := s.ips[ip := Holding(scope, o)]), Ok(()))
  }

  /** The addresses `start`, ..., `start + count - 1` entered under `h`. */
  function HoldAll(ips: map<nat, Holding>, start: nat, count: nat, h: Holding): (r: map<nat, Holding>)
    ensures forall a :: a in r <==> a in ips || start <= a < start + count
    ensures forall a :: a in r ==> r[a] == if start <= a < start + count then h else ips[a]
  {
    if count == 0 then ips else HoldAll(ips, start, count - 1, h)[start + count - 1 := h]
  }

  // --- Membership ---

  function MemberIps(s: Tables, c: string): set<nat> {
    set k | k in s.members && k.0 == c :: s.members[k].ip
  }

  /** A row that exists is made active again and keeps its address. */
  function EnsureActive(s: Tables, c: string, h: string, lo: nat, hi: nat): (Tables, Result<nat>) {
    if (c, h) in s.members then
      (s.(members := s.members[(c, h) := s.members[(c, h)].(active := true)]), Ok(s.members[(c, h)].ip))
    else
      match LowestFree(MemberIps(s, c), lo, hi)
      case None => (s, Err(Exhausted))
      case Some(ip) =>
        if c !in s.clusters || h !in s.hosts then (s, Err(Constraint))
        else (s.(members := s.members[(c, h) := Member(ip, true)]), Ok(ip))
  }

  predicate HasLiveVm(s: Tables, c: string, h: string) {
    exists v :: v in s.vms && s.vms[v].cluster == c && s.vms[v].host == h && s.vms[v].state != PendingTeardown
  }

  function MarkMemberPending(s: Tables, c: string, h: string): Tables {
    if (c, h) in s.members && !HasLiveVm(s, c, h)
    then s.(members := s.members[(c, h) := s.members[(c, h)].(active := false)])
    else s
  }

  function MarkClusterPending(s: Tables, c: string): Tables {
    s.(members := map k | k in s.members :: if k.0 == c then s.members[k].(active := false) else s.members[k])
  }

  // --- VMs ---

  function SetVmState(s: Tables, v: string, st: VmState): Tables {
    if v in s.vms then s.(vms := s.vms[v := s.vms[v].(state := st)]) else s
  }

  function MarkVmsFailed(s: Tables, h: string): Tables {
    s.(vms := map v | v in s.vms ::
         if s.vms[v].host == h && s.vms[v].state !in {Stopped, Failed} then s.vms[v].(state := Failed) else s.vms[v])
  }

  // --- Tombstone acknowledgements ---

  /** The addresses go first, whatever state the VM is in; the row goes only if it is pending on this host. */
  function AckVm(s: Tables, h: string, v: string): Tables {
    var freed := ReleaseIps(s, OfVm(v));
    if v in s.vms && s.vms[v].host == h && s.vms[v].state == PendingTeardown
    then freed.(vms := s.vms - {v}, gpus := set g | g in s.gpus && g.vm != v)
    else freed
  }

  function AckVms(s: Tables, h: string, vms: seq<string>): Tables
    decreases |vms|
  {
    if vms == [] then s else AckVms(AckVm(s, h, vms[0]), h, vms[1..])
  }

  /** The membership row goes only if it is pending. */
  function DropPendingMember(s: Tables, h: string, c: string): Tables {
    if (c, h) in s.members && !s.members[(c, h)].active then s.(members := s.members - {(c, h)}) else s
  }

  /** A cluster that nothing refers to goes, with its addresses. */
  function DropDrained(s: Tables, c: string): Tables {
    if Referenced(s, c) then s
    else s.(ips := WithoutOwner(s.ips, OfCluster(c)), clusters := s.clusters - {c})
  }

  function AckCluster(s: Tables, h: string, c: string): Tables {
    DropDrained(DropPendingMember(s, h, c), c)
  }

  ghost predicate HasVni(s: Tables, c: string, vni: nat) {
    c in s.clusters && s.clusters[c].net.vni == vni
  }

  ghost function AckVni(s: Tables, h: string, vni: nat): Tables {
    if c :| HasVni(s, c, vni) then AckCluster(s, h, c) else s
  }

  ghost function AckVnis(s: Tables, h: string, vnis: seq<nat>): Tables
    decreases |vnis|
  {
    if vnis == [] then s else AckVnis(AckVni(s, h, vnis[0]), h, vnis[1..])
  }

  ghost function Ack(s: Tables, h: string, vnis: seq<nat>, vms: seq<string>): Tables {
    AckVnis(AckVms(s, h, vms), h, vnis)
  }

  // --- The capacity gate ---

  const GIB := 0x4000_0000
  const I64_END := 0x8000_0000_0000_0000
  const U64_END := 0x1_0000_0000_0000_0000
  const GIB_END := I64_END / GIB   // the first number of GiB whose bytes no signed 64-bit number counts

  function AsI64(n: nat): int
    requires n < U64_END
  {
    if n < I64_END then n else n - U64_END
  }

  function Saturate(n: int): int {
    if n < -I64_END then -I64_END else if n >= I64_END then I64_END - 1 else n
  }

  /** The bytes of a 64-bit number of GiB, which is read as a signed one. */
  function NeedBytes(gib: nat): int
    requires gib < U64_END
  {
    Saturate(AsI64(gib) * GIB)
  }

  /** The CPU overcommit factor `num / den`, at least one. */
  datatype Ratio = Ratio(num: nat, den: nat) {
    predicate Valid() { 0 < den <= num }

    /** `n` times the factor, rounded down. */
    function Scale(n: nat): nat
      requires den > 0
    {
      n * num / den
    }
  }

  datatype Resource = Cpu | Memory | Rootfs | Data

  /** What one VM takes: vCPUs, MiB, GiB, and the sizes of its disks in GiB, added up in full. */
  function Amount(vm: Vm, r: Resource): nat {
    match r
    case Cpu => vm.cpu
    case Memory => vm.memory
    case Rootfs => vm.rootfsGib
    case Data => vm.dataGib
  }

  /** Bytes per unit asked for, where the host reports bytes. */
  function Unit(r: Resource): nat {
    if r == Rootfs || r == Data then GIB else 1
  }

  function Total(h: Host, ratio: Ratio, r: Resource): nat
    requires ratio.Valid()
  {
    match r
    case Cpu => ratio.Scale(h.cpu)
    case Memory => h.memory
    case Rootfs => h.rootfsBytes
    case Data => h.dataBytes
  }

  function AmountOn(vm: Vm, h: string, r: Resource): nat {
    if vm.host == h then Amount(vm, r) else 0
  }

  /** What the VMs on host `h` use together. */
  ghost function Used(vms: map<string, Vm>, h: string, r: Resource): nat
    decreases |vms|
  {
    if vms == map[] then 0
    else var v :| v in vms; AmountOn(vms[v], h, r) + Used(vms - {v}, h, r)
  }

  /** What the gate asks for: the disk sizes are added up in 64 bits and the sum is read as a signed number. */
  function Need(vm: Vm, r: Resource): int {
    if r == Data then NeedBytes(vm.dataGib % U64_END) else Amount(vm, r) * Unit(r)
  }

  ghost predicate HasRoom(s: Tables, ratio: Ratio, vm: Vm, r: Resource)
    requires ratio.Valid() && vm.host in s.hosts
  {
    Total(s.hosts[vm.host], ratio, r) - Used(s.vms, vm.host, r) * Unit(r) >= Need(vm, r)
  }

  ghost predicate Admits(s: Tables, ratio: Ratio, vm: Vm)
    requires ratio.Valid()
  {
    && vm.host in s.hosts && s.hosts[vm.host].healthy
    && HasRoom(s, ratio, vm, Cpu) && HasRoom(s, ratio, vm, Memory)
    && HasRoom(s, ratio, vm, Rootfs) && HasRoom(s, ratio, vm, Data)
  }

  predicate GpuTaken(gpus: set<GpuClaim>, vm: string, h: string, pci: string) {
    exists g <- gpus :: g.pci == pci && (g.host == h || g.vm == vm)
  }

  function ClaimGpus(gpus: set<GpuClaim>, vm: string, h: string, pcis: seq<string>): Option<set<GpuClaim>>
    decreases |pcis|
  {
    if pcis == [] then Some(gpus)
    else if GpuTaken(gpus, vm, h, pcis[0]) then None
    else ClaimGpus(gpus + {GpuClaim(vm, h, pcis[0])}, vm, h, pcis[1..])
  }

  predicate DiskTaken(disks: map<string, DiskRow>, key: DiskKey) {
    AssignmentId(key) in disks || exists id :: id in disks && disks[id].key == key
  }

  function EnterDisks(disks: map<string, DiskRow>, rows: seq<DiskRow>): Option<map<string, DiskRow>>
    decreases |rows|
  {
    if rows == [] then Some(disks)
    else if DiskTaken(disks, rows[0].key) then None
    else EnterDisks(disks[AssignmentId(rows[0].key) := rows[0]], rows[1..])
  }

  predicate VmNameTaken(s: Tables, id: string, vm: Vm) {
    id in s.vms || exists v :: v in s.vms && s.vms[v].cluster == vm.cluster && s.vms[v].name == vm.name
  }

  /** The commit step of placement: the gate, the VM row, its GPUs and its disks, or nothing. */
  ghost function InsertVm(s: Tables, ratio: Ratio, id: string, vm: Vm, pcis: seq<string>, rows: seq<DiskRow>)
    : (Tables, Result<()>)
    requires ratio.Valid()
  {
    if !Admits(s, ratio, vm) then
      (s, Err(if vm.host in s.hosts && s.hosts[vm.host].healthy then CapacityRaced else HostUnavailable))
    else if VmNameTaken(s, id, vm) then (s, Err(Conflict))
    else if vm.cluster !in s.clusters then (s, Err(Constraint))
    else
      var gpus, disks := ClaimGpus(s.gpus, id, vm.host, pcis), EnterDisks(s.disks, rows);
      if gpus.None? || disks.None? then (s, Err(CapacityRaced))
      else (s.(vms := s.vms[id := vm], gpus := gpus.value, disks := disks.value), Ok(()))
  }
}
