# Basis control plane: a verified model

Basis places virtual machines of many clusters on a fleet of hosts. A
controller keeps the tables (hosts, clusters, memberships, VMs, GPU claims,
disk assignments, addresses), agents on the hosts keep the volumes. This
project models the parts of both where something can go wrong across calls,
and proves what holds over whole runs:

- **Tables and runs** (`Tables`, `Controller`, `Database`). The tables are
  maps; each transaction is a function on them, and the class `Database.Db`
  carries the transactions out field by field and is proved to compute those
  functions. A run interleaves transactions in any order; a caller may act on
  what it read in any earlier state. The assumptions about callers are those of
  `Controller.Legal` and `Addresses.ProperRun`: a cluster identifier is new;
  a network was offered by the allocator on some earlier state; addresses come
  from a configured pool, such an offer, or a cluster that was read; a cluster
  is inserted with an endpoint and a service block that earlier steps answered
  for its identifier and that were not released since, and a private endpoint
  is reserved in the network it is inserted with; its addresses are released by
  hand only while it is not there; a VM is inserted with an address some
  earlier step answered for it; a service block does not wrap around 2^32.
  `Reachable` shows that they can be met.
- **Networks and addresses** (`Arith`, `Ipv4`, `Config`, `Networks`,
  `ServiceBlocks`, `Addresses`, `Allocators`, `VmAddresses`, `Reachable`).
  Cluster blocks stay disjoint although only the VNI is unique, because the
  lowest free VNI and the lowest free block are always the same index. Each
  allocator answers with the lowest free address or block, and refuses exactly
  when there is none. No address is held or announced by two clusters, and VM
  rows that keep their claims never share one.
- **Teardown** (`Teardown`, `Draining`). What no acknowledgement can delete, and exactly
  when a sequence of acknowledgements deletes a cluster.
- **Capacity and scheduling** (`Capacity`, `Scoring`, `Disks`, `Scheduler`,
  `Placements`). No host's CPU, memory or rootfs is overcommitted in any run,
  and its data exactly when a VM with 2^33 GiB of disks or more commits; greedy
  disk placement; when the scheduler's filter and the commit-time gate agree;
  replica spread.
- **Agent** (`NvLink`, `Naming`, `Ledger`, `LedgerSafety`, `LedgerReconcile`,
  `LedgerOutcome`, `LedgerBackend`, `StorageConfig`). GPU groups are the
  connected components; what each finished storage operation leaves, row by row
  and volume by volume; the volume ledger survives a crash after any effect; two
  reconcile passes repair it.
- **Route filter** (`Ingress`). The compiled policy accepts exactly what the
  specification accepts, a VM may announce exactly the space of its own cluster,
  and a node's accepted routes stay in its cluster.

Integers are unbounded; 32- and 64-bit wrap-around, truncation and saturation
are written out where they decide something. The CPU overcommit ratio is a
fraction of at least one. The CIDR arithmetic is that of section 3.1 of RFC
4632, and a VNI has the 24 bits of section 5 of RFC 7348.

Where the code and its comments or tests differ, the model follows the code:

- An acknowledgement frees the addresses of every VM it lists, pending or not
  (the comment says that stale entries are ignored), and cleaning up a failed VM
  frees them before its row goes, so a row can outlive its claim and share its
  address: `Teardown.VmKeepsAddressIff`, `VmAddresses.RowsKeepAddressesIff`,
  `Reachable.RowsCanShare`.
- Each allocator looks at its own scope while the key spans all of them, so an
  address left under a deleted cluster can stop another cluster's VMs:
  `Allocators.VmAddressIsClean`, `Reachable.KeyCanStopAllocator`.
- A cluster is looked at again only when an acknowledgement names its VNI, so a
  VNI named before the last VM is listed leaves the cluster row behind:
  `Teardown.ClusterIsGoneIff`, `Teardown.VniBeforeVmStrands`.
- Marking the VMs of a failed host overwrites a pending teardown:
  `Teardown.FailureStopsTeardown`.
- The private endpoint is the last address of the VM range, not above it; only
  its reservation keeps VMs away from it: `Networks.PairLayout`,
  `Allocators.VmAddressIsClean`.
- Without a bridge reserve the first host gets a VM address:
  `Controller.NoReserveTakesVmAddress`.
- The align-up of the block search wraps at 2^32: `ServiceBlocks.SearchIsSoundIff`.
- A disk of 2^63 GiB or more has a negative size, when it is placed and when it
  is committed, so the gate that is to keep placement from going over a host's
  capacity lets it through: `Disks.NeedIsPositiveIff`,
  `Disks.HugeDiskFitsFullDevice`, `Placements.DecisionCanOverdraw`,
  `Capacity.RunDataWithinIff`, `Reachable.HostCanBeOverdrawn`.
- What is left on a host is cut to 32 bits: `Scheduler.EveryAdmittedRequestFitsIff`,
  `Scheduler.WrapHidesMemory`. So is the sum of a request's disk sizes:
  `Placements.ExactDecisionCommitsIff`, `Placements.DecisionCanFail`.
- Preference decides before same-cluster spread, which one unit test expects
  the other way round: `Placements.ScoreOrder`.

## Model

| member | source | states |
|---|---|---|
| `Config.Validate` | crates/basis-controller/src/config.rs:307-418 | start-up validation accepts exactly the configurations in which no pool shares an address with the supernet or another pool, names are unique, blocks have room for bridges and VMs, VNIs are 24 bit, and every pool holds four default service blocks |
| `Config.CheckPool` | crates/basis-controller/src/config.rs:426-445 | the per-pool part, against the names and blocks seen so far |
| `Config.BlockFits` | crates/basis-controller/src/config.rs:404-414 | the comparison of prefix lengths is the comparison of sizes: refused exactly when four blocks do not fit |
| `Ipv4.OverlapIffShared` | crates/basis-controller/src/db.rs:1892-1897 | two blocks pass the overlap test exactly when they have an address in common |
| `Ipv4.SubnetsDisjoint` | crates/basis-controller/src/db.rs:506-513 | subnets of one block overlap only when they are the same subnet |
| `Networks.OfferIsPair` | crates/basis-controller/src/db.rs:479-533 | on tables whose clusters pair the k-th VNI with the k-th subnet, the separate lowest-free searches stop at the same k |
| `Networks.PairedAreDisjoint` | crates/basis-controller/src/db.rs:184-200 | paired clusters with different VNIs share no address |
| `Networks.PairLayout` | crates/basis-controller/src/db.rs:1923-1946 | a carved block is network, bridges, VMs, broadcast in order, inside the supernet, and the private endpoint is the last VM address |
| `Database.Db.AllocateClusterNetwork` | crates/basis-controller/src/db.rs:479-533 | the loop returns the lowest free VNI with the lowest free block, Malformed exactly when a stored block does not parse, Exhausted only when all VNIs or all subnets are taken |
| `Database.Db.TakenNetworks` | crates/basis-controller/src/db.rs:485-496 | collects exactly the VNIs and blocks in use |
| `Controller.PutHostIff` | crates/basis-controller/src/db.rs:1166-1218 | a host row is entered or replaced exactly when no other host has its name |
| `Controller.InsertClusterIff` | crates/basis-controller/src/db.rs:942-986 | a row is refused exactly when it would break a key or unique column, and then nothing changes; Conflict exactly when the identifier or the name is taken, AllocationRaced exactly when only the VNI is |
| `Controller.DeleteClusterIff` | crates/basis-controller/src/db.rs:1030-1037 | a row is deleted exactly when no reference would dangle |
| `Controller.RunKeepsSchema` | crates/basis-controller/src/db.rs:136-467 | keys, unique columns (host and cluster names, VNIs, bridge addresses within a cluster, VM names) and references hold in every state of every run |
| `Controller.RunKeepsPairs` | crates/basis-controller/src/db.rs:479-533 | every cluster of every run has a paired network, however stale the snapshot its network was chosen on |
| `Controller.ClusterBlocksStayDisjoint` | crates/basis-controller/src/db.rs:479-533 | in every state of every run no two clusters share an address, although only the VNI is unique |
| `Controller.BridgeAddressIsConstant` | crates/basis-controller/src/db.rs:609-632 | while a membership row is there, through any retirements and reactivations by anyone, its address does not change |
| `Controller.ActivationIff` | crates/basis-controller/src/db.rs:609-676 | a membership that is there is made active with its address; otherwise the lowest bridge address no member of the cluster has is taken, Exhausted exactly when every candidate is used; nothing else changes |
| `Controller.MemberRowGoesIff` | crates/basis-controller/src/db.rs:1809-1816 | in every step of a run a membership row ends exactly when its own host names the cluster's VNI while the row is pending |
| `Controller.MembershipFollows` | crates/basis-controller/src/db.rs:685-725 | what every step does to a membership row that stays: it is active afterwards exactly when it was and the step neither retires its cluster nor, with no live VM left on the host, the row itself, or when the step activates it; another cluster's retirement leaves it alone |
| `Controller.VmRowFollows` | crates/basis-controller/src/db.rs:1704-1718 | what every step does to a VM row that stays: only its state changes, by its own report or by the failure of its host |
| `Controller.BridgeAddressesAreInRange` | crates/basis-controller/src/db.rs:634-676 | with a bridge reserve of at least one, every bridge address of every run lies in its cluster's bridge range |
| `Controller.NoReserveTakesVmAddress` | crates/basis-controller/src/db.rs:637-639 | with reserve zero the first activation returns the first VM address |
| `Database.Db.EnsureHostClusterActive` | crates/basis-controller/src/db.rs:609-676 | reactivates and keeps the address, or takes the lowest bridge address free in the cluster |
| `Database.Db.AllocateFromRange` | crates/basis-controller/src/db.rs:852-916 | enters the lowest address that neither its scope nor a host uses; an address held in another scope breaks the key |
| `Tables.LowestFree` | crates/basis-controller/src/db.rs:873-893 | the first candidate not taken; none only when all are taken; the start is a candidate even of an empty range |
| `Allocators.AllocatesLowestIff` | crates/basis-controller/src/db.rs:852-916 | for all tables: an address is answered exactly when it is the lowest candidate that neither its scope nor a host has and nobody holds it; Exhausted exactly when every candidate is used in the scope or by a host; the key stops it exactly when the lowest such candidate is held in another scope |
| `Allocators.AllocatesBlockIff` | crates/basis-controller/src/db.rs:772-850 | for all tables and ranges in which the search does not wrap: Exhausted exactly when no aligned block is free, else the lowest free block or a key that is in the way |
| `Addresses.AddressesCome` | crates/basis-controller/src/db.rs:538-597 | every step: an address in the table was there before, unchanged, or was entered by an allocator inside its range and off every host address |
| `Addresses.ClusterAddressGoesIff` | crates/basis-controller/src/db.rs:928-940 | an address of a cluster, there or not yet there, leaves the table exactly with a release that names the cluster or an acknowledgement that deletes it |
| `Addresses.ReservedIsProvisioned` | crates/basis-controller/src/server.rs:1401-1447 | what earlier steps answered for a cluster and nobody released is held for it when it is inserted, through any steps of others in between |
| `Addresses.ClustersStayProvisioned` | crates/basis-controller/src/server.rs:1401-1447 | in every state of a run every cluster holds its endpoint and its whole service block |
| `Addresses.HeldAddressesAreInScope` | crates/basis-controller/src/db.rs:538-597 | in every state of a run every held address lies in its pool, or in the supernet and, while its cluster is there, in the cluster's VM range |
| `Allocators.VmAddressIsClean` | crates/basis-controller/src/db.rs:553-562 | a VM address is the lowest of the VM range that neither the cluster nor a host has, hence no network, broadcast or bridge address, held by nobody, no host address, not the private endpoint, and held by the VM afterwards; Exhausted exactly when every address of the VM range is used by the cluster or a host; the key stops the allocator exactly when the address it picks is held under the scope of a cluster that is not in the table |
| `Allocators.VipIsClean` | crates/basis-controller/src/db.rs:538-546 | the same for an endpoint taken from a pool: refused exactly when every address inside the pool is used, and the key never stops the allocator |
| `Allocators.BlockIsClean` | crates/basis-controller/src/db.rs:772-850 | the same for a service block: the lowest free block of the pool, every address of it held by nobody and entered for the cluster; Exhausted exactly when the pool has no free block |
| `Allocators.EndpointIsClean` | crates/basis-controller/src/db.rs:569-597 | a private endpoint is an address of the offered network, entered for the cluster exactly when nobody holds it; whoever holds it is a cluster, never a pool |
| `Reachable.KeyCanStopAllocator` | crates/basis-controller/src/db.rs:852-916 | for every valid configuration a run in which the key stops the VM allocator of a cluster that holds no address in its scope: the address was allocated on a stale read of a cluster since deleted, and the next cluster got its network |
| `Addresses.SpacesStayApart` | crates/basis-controller/src/bgp.rs:252-275 | in every state of a run no address is in the announced space of two clusters |
| `Addresses.VmsStayHome` | crates/basis-controller/src/server.rs:1143-1150 | in every state of a run every VM row's address is in its own cluster's VM range, because an earlier step answered it |
| `VmAddresses.VmAddressStaysIff` | crates/basis-controller/src/db.rs:920-926 | a VM's address leaves the table exactly with a step that names the VM: a release or an acknowledgement |
| `VmAddresses.VmHoldsIff` | crates/basis-controller/src/db.rs:553-562 | in every state of a run a VM holds an address exactly when a step gave it to the VM and no step since has named the VM |
| `VmAddresses.NamedRowGoesIff` | crates/basis-controller/src/db.rs:1777-1791 | a step that names a VM deletes its row exactly when it is its own host's acknowledgement and the VM is pending |
| `VmAddresses.RowsKeepAddressesIff` | crates/basis-controller/src/server.rs:1143-1215 | every VM row of every state of a run holds its address exactly when each step names a VM with a row only as its own host's acknowledgement while the VM is pending, and each VM that can be inserted was given its address and not named since |
| `VmAddresses.TidyRowsAreApart` | crates/basis-controller/src/server.rs:1143-1215 | in such a run no two VM rows share an address, and none has a cluster's endpoint or an address of a service block |
| `Reachable.RowsCanShare` | crates/basis-controller/src/server.rs:700-712 | for every valid configuration a run in which two VM rows share an address: a release, or another host's acknowledgement, names a VM whose row stays |
| `Reachable.ClusterAndVmAreReachable` | crates/basis-controller/src/server.rs:1394-1460 | for every valid configuration the assumptions on callers admit a run that creates a cluster, allocates a VM address and inserts the VM with it |
| `Reachable.PrivateClusterIsReachable` | crates/basis-controller/src/server.rs:1401-1447 | for every valid configuration they admit one that reserves a private endpoint, takes a service block and inserts the cluster with both |
| `ServiceBlocks.BlockIsLowest` | crates/basis-controller/src/db.rs:811-846 | the search returns the lowest aligned block in range that meets no used address, and nothing exactly when there is none |
| `ServiceBlocks.AlignUpClearsLowBits` | crates/basis-controller/src/db.rs:811 | the search starts at the wrapping 32-bit sum with its low bits cleared |
| `ServiceBlocks.SearchIsSoundIff` | crates/basis-controller/src/db.rs:811 | the answer suits for every set of used addresses exactly when the start plus size minus one fits 32 bits |
| `ServiceBlocks.WrappedSearch` | crates/basis-controller/src/db.rs:811 | when it does not fit, no block suits and the search answers with address zero |
| `ServiceBlocks.PoolServesExactly` | crates/basis-controller/src/db.rs:772-850 | an unused /p pool serves exactly 2^(s-p) - 2 blocks of length s, in address order, then reports Exhausted |
| `Database.Db.AllocateServiceBlock` | crates/basis-controller/src/db.rs:772-850 | all addresses of the block or none |
| `Database.Db.EnterBlock` | crates/basis-controller/src/db.rs:824-837 | address by address, rolled back on a key violation |
| `Database.Db.SearchBlock` | crates/basis-controller/src/db.rs:811-846 | the loop computes the block search |
| `Teardown.AckDeletesOnlyPending` | crates/basis-controller/src/db.rs:1762-1850 | whatever it lists, an acknowledgement deletes only its host's pending memberships and VMs and unreferenced clusters; GPUs and cluster addresses go exactly with their owners, and a cluster that is not there loses none |
| `Teardown.LiveRowsSurvive` | crates/basis-controller/src/db.rs:1777-1840 | no sequence of acknowledgements deletes an active membership, a VM that is not pending, or a cluster still referred to |
| `Teardown.ActivatedRowSurvives` | crates/basis-controller/src/db.rs:609-632 | a membership activated or reactivated keeps its row, address and cluster against every acknowledgement that arrives later |
| `Teardown.DeletionKeepsSchema` | crates/basis-controller/src/db.rs:1777-1840 | such deletions keep every key and reference |
| `Teardown.ClusterIsGoneIff` | crates/basis-controller/src/db.rs:1762-1850 | for all tables and every sequence of acknowledgements: a cluster is gone exactly when it was retired and one of them names its VNI at a time when all its hosts have named it and all its VMs have been listed; then no row and no address of it or its VMs is left |
| `Teardown.VmIsGoneIff` | crates/basis-controller/src/db.rs:1777-1791 | for all tables and every sequence of acknowledgements: a VM row is gone exactly when it was pending and its own host listed it; then its addresses are gone |
| `Draining.DrainsInRunIff` | crates/basis-controller/src/db.rs:1762-1850 | in every run, from any state in which a cluster is retired, through any steps that do not work on it: gone exactly when an acknowledgement completed it, and then nothing of it is left |
| `Teardown.VmsFirstDrains` | crates/basis-controller/src/db.rs:1773-1776 | hosts that list their VMs no later than the VNI, and all name it, drain the cluster in any interleaving: no row and no address of it or its VMs is left |
| `Teardown.VniBeforeVmStrands` | crates/basis-controller/src/db.rs:1799-1839 | the VNI named before the VM: an unreferenced cluster row stays |
| `Teardown.VmKeepsAddressIff` | crates/basis-controller/src/db.rs:1777-1782 | a VM's address survives an acknowledgement exactly when the VM is not listed |
| `Teardown.MemberRetiresIff` | crates/basis-controller/src/db.rs:685-707 | an active membership is retired exactly when no VM of the cluster on the host is left that is not pending; nothing else changes |
| `Teardown.ClusterRetiresIff` | crates/basis-controller/src/db.rs:709-725 | retiring a cluster on all hosts makes exactly its own memberships inactive and changes nothing else |
| `Teardown.DeletionRetires` | crates/basis-controller/src/server.rs:1537-1561 | marking all VMs and then all memberships of a cluster retires it and changes no other cluster's membership and no other VM |
| `Teardown.HostFailureIff` | crates/basis-controller/src/db.rs:1869-1889 | a host that fails sets exactly its own VMs that are not stopped to failed and changes nothing else |
| `Teardown.FailureStopsTeardown` | crates/basis-controller/src/db.rs:1869-1889 | a pending VM on a host that fails is deleted by no acknowledgement and keeps its cluster |
| `Database.Db.AckTombstones` | crates/basis-controller/src/db.rs:1762-1850 | the transaction's two loops compute the acknowledgement |
| `Database.Db.AckVmTombstones` | crates/basis-controller/src/db.rs:1777-1791 | the VM loop |
| `Capacity.RunStaysWithin` | crates/basis-controller/src/db.rs:1391-1542 | in every run in which no host shrinks, CPU times the ratio's denominator, memory and rootfs bytes of every host stay within its columns, however stale the decisions |
| `Capacity.GateIff` | crates/basis-controller/src/db.rs:1408-1434 | the gate on the columns of the host row: CPUs times the overcommit fraction, MiB, and bytes |
| `Capacity.ScaleIff` | crates/basis-controller/src/db.rs:1420-1422 | the product cut to an integer bounds a number of CPUs exactly when the product does |
| `Capacity.SumsOfFields` | crates/basis-controller/src/db.rs:1417-1432 | each further VM of a host adds its own column to the sum of that resource |
| `Capacity.AdmittedDataFitsIff` | crates/basis-controller/src/db.rs:1404-1434 | what the gate admits stays within the host's data bytes exactly when its disks add up to less than 2^33 GiB |
| `Capacity.DataWithinIff` | crates/basis-controller/src/db.rs:1404-1434 | in every state of such a run a host's disks are within its data bytes exactly when none of its VMs has 2^33 GiB or more |
| `Capacity.RunDataWithinIff` | crates/basis-controller/src/db.rs:1404-1434 | over such a run no host's data is ever overcommitted exactly when no VM with 2^33 GiB or more can be inserted at its step |
| `Reachable.HostCanBeOverdrawn` | crates/basis-controller/src/db.rs:2485-2491 | for every valid configuration a run in which a host without data bytes gets a VM with a disk of 2^64 - 2^32 GiB |
| `Capacity.OneVmPerGpu` | crates/basis-controller/src/db.rs:410-421 | in every state of every run a GPU of a host has one VM, and the VM is on the host |
| `Capacity.CommitIff` | crates/basis-controller/src/db.rs:1391-1542 | an insert succeeds exactly when the gate admits it, its id and name are free, its cluster is there, its GPUs differ and are unclaimed, and its disks differ and are unassigned; it enters exactly the VM, its GPUs and its disks, or changes nothing |
| `Capacity.RefusalIff` | crates/basis-controller/src/db.rs:1391-1542 | which error a refused insert reports, exactly |
| `Capacity.ClaimIff` | crates/basis-controller/src/db.rs:1491-1510 | GPU rows are entered exactly when they differ and none is taken |
| `Capacity.GpusEnterIff` | crates/basis-controller/src/db.rs:1491-1510 | on the claims in the table: a VM's GPUs are entered exactly when they differ and no claim of the host or the VM is on one of them, and then the claims are the old ones and these |
| `Capacity.EnterIff` | crates/basis-controller/src/db.rs:1512-1538 | disk rows are entered exactly when they differ and none is assigned |
| `Capacity.DisksEnterIff` | crates/basis-controller/src/db.rs:1512-1538 | on the rows in the table: disks are entered exactly when they differ and no row is for one of them |
| `Capacity.UsedRemove` | crates/basis-controller/src/db.rs:1417-1432 | the sum over a host's VMs does not depend on the order of the rows |
| `Database.Db.InsertVm` | crates/basis-controller/src/db.rs:1391-1542 | gate, row, GPU loop and disk loop, rolled back as one, compute the insert |
| `Database.Db.CapacityGate` | crates/basis-controller/src/db.rs:1408-1434 | the gate: host healthy and room in all four resources, the disk sizes added up in 64 bits and read as a signed number |
| `Database.SumOnHost` | crates/basis-controller/src/db.rs:1417-1432 | the sum of one resource over a host's VMs |
| `Database.HostUsageSnapshot` | crates/basis-controller/src/db.rs:1607-1668 | for every host the sums, claimed GPUs and per-cluster VM counts, each of the state its query reads; absent hosts are idle |
| `Database.AddClaims` | crates/basis-controller/src/db.rs:1644-1651 | the loop adds to each host exactly the GPUs claimed on it |
| `Database.AddCounts` | crates/basis-controller/src/db.rs:1653-1668 | and for each cluster the number of its VMs there |
| `Database.Db.constructor` | crates/basis-controller/src/db.rs:136-467 | empty tables |
| `Disks.PickDiskPlacements` | crates/basis-controller/src/scheduler.rs:279-372 | the loops return the greedy placements of all disks, or nothing when some disk is malformed or fits nowhere after the ones before it |
| `Disks.PickOne` | crates/basis-controller/src/scheduler.rs:310-355 | the first of the best-ranked feasible devices, or none exactly when none is feasible |
| `Disks.GreedyIsUnique` | crates/basis-controller/src/scheduler.rs:299-371 | the greedy rules determine the placements |
| `Disks.FailsOnlyWhenStuck` | crates/basis-controller/src/scheduler.rs:357 | the search fails only when no complete greedy placement exists |
| `Disks.SingleDiskFailsIff` | crates/basis-controller/src/scheduler.rs:299-357 | one well-formed disk fails exactly when no device can take it |
| `Disks.SlotAt` | crates/basis-controller/src/scheduler.rs:299-313 | every device of every pool is a candidate, once for each place in its pool, in that order |
| `Disks.SingleDiskFitsIff` | crates/basis-controller/src/scheduler.rs:299-357 | one disk has a place exactly when some device of some pool takes it: every wanted label has a wanted value, the device is schedulable, and it has at least the bytes, an exact fit included |
| `Disks.PlacementFits` | crates/basis-controller/src/scheduler.rs:311-322 | placement i is for disk i, on a schedulable device of a matching pool with room at its turn |
| `Disks.NeverOvercharged` | crates/basis-controller/src/scheduler.rs:358-361 | no device is charged beyond its free bytes by any number of disks, and the running count is exact |
| `Disks.SizesFitIff` | crates/basis-controller/src/scheduler.rs:302 | the disks on a device are within its free bytes in full exactly when each is below 2^33 GiB, where the count saturates |
| `Disks.InitialFreeOf` | crates/basis-controller/src/scheduler.rs:291-297 | with distinct devices the running count starts at the reported free bytes |
| `Disks.ReuseOnlyWhenAllUsed` | crates/basis-controller/src/scheduler.rs:338-340 | a device of the same VM is reused only when every equally ranked feasible device is in use |
| `Disks.SpreadOverDevices` | crates/basis-controller/src/scheduler.rs:338-340 | a device takes a second disk of the VM only when every device equally preferred and equally replicated that could take it has one already |
| `Disks.RankOrder` | crates/basis-controller/src/scheduler.rs:398-412 | one device ranks above another exactly when its pool is preferred, else it has no replica of the cluster, else this VM does not use it, else it is the tighter fit, all added up and compared in the width of their fields |
| `Disks.TighterIsSmaller` | crates/basis-controller/src/scheduler.rs:385-390 | up to 2^63 bytes the tighter fit is the smaller leftover |
| `Disks.NeedIsPositiveIff` | crates/basis-controller/src/scheduler.rs:302 | a disk is charged a positive size exactly below 2^63 GiB |
| `Disks.HugeDiskFitsFullDevice` | crates/basis-controller/src/scheduler.rs:302 | from 2^63 GiB on it fits a full device and frees space |
| `Scoring.LessIsTotal` | crates/basis-controller/src/scheduler.rs:398-412 | the derived field-by-field order is a strict total order |
| `Scoring.WeightOfOne` | crates/basis-controller/src/scheduler.rs:61-67 | each preference counts with its weight exactly when the label has its value, wherever it is in the list |
| `Scheduler.BytesAndUnits` | crates/basis-controller/src/scheduler.rs:433-458 | comparing bytes is comparing whole GiB, rounded down |
| `Scheduler.FittingHostIsAdmittedIff` | crates/basis-controller/src/scheduler.rs:433-458 | a host that fits is admitted by the gate exactly in the resources it has not overdrawn |
| `Scheduler.AdmittedHostFitsIff` | crates/basis-controller/src/scheduler.rs:433-458 | a host the gate admits fits exactly when the low 32 bits of what is left cover the request |
| `Scheduler.EveryAdmittedRequestFitsIff` | crates/basis-controller/src/scheduler.rs:433-458 | every request a host would admit fits exactly when, unless it is overdrawn and admits none, each leftover is below 2^32 or is 2^32 - 1 modulo 2^32 |
| `Scheduler.WrapHidesMemory` | crates/basis-controller/src/scheduler.rs:440-443 | an idle host with 2^32 MiB is admitted by the gate and does not fit |
| `Scheduler.FreeGpusAreUntaken` | crates/basis-controller/src/scheduler.rs:561-566 | the free GPUs are those of the inventory that no VM has claimed, all of them, in inventory order |
| `Scheduler.GroupIsAll` | crates/basis-controller/src/scheduler.rs:680-690 | an NVLink group's list is all free GPUs with its number, in order |
| `Scheduler.TopologyScoreIs` | crates/basis-controller/src/scheduler.rs:670-713 | on the inventory: 3 exactly when some real group has enough unclaimed GPUs for the count and the demanded size, 1 exactly when none is demanded and enough GPUs are unclaimed |
| `Scheduler.EligibleIff` | crates/basis-controller/src/scheduler.rs:546-595 | a host is eligible exactly when it is healthy, has a wanted value for every required label, the low 32 bits of what is left cover the request in all four resources, its unclaimed GPUs can serve the request, and its disks have greedy placements |
| `Scheduler.GpuTopologyScore` | crates/basis-controller/src/scheduler.rs:670-713 | 3 with the first GPUs of one real NVLink group, else 1 with the first GPUs when no group is demanded, else nothing, in whatever order the groups are visited |
| `Scheduler.Schedule` | crates/basis-controller/src/scheduler.rs:533-660 | returns the last of the best-scored eligible hosts with GPUs and disks chosen on it; refuses exactly when none is eligible, and blames the requirements exactly when no healthy host meets them |
| `Scheduler.Consider` | crates/basis-controller/src/scheduler.rs:550-626 | the filters and the score of one host |
| `Scheduler.LastMax` | crates/basis-controller/src/scheduler.rs:650-653 | the last of the best candidates |
| `Placements.SelectionIsClean` | crates/basis-controller/src/scheduler.rs:566-583 | the chosen GPUs are as many as asked for, distinct, unclaimed, and in one NVLink group when a group size is asked for |
| `Placements.SumGibOfOne` | crates/basis-controller/src/db.rs:2485-2491 | every disk counts with its size in the sum the gate reads |
| `Placements.ExactDecisionCommitsIff` | crates/basis-controller/src/scheduler.rs:533-660 | a decision made on an exact snapshot of a host that is not overdrawn commits exactly when what is left covers the disk sizes added up in 64 bits and read as a signed number; always when they stay below 2^32 GiB; and then the host is within its data bytes exactly when they stay below 2^33 GiB |
| `Placements.DecisionCanFail` | crates/basis-controller/src/scheduler.rs:130-135 | two disks of about 2^63 GiB that add up to nothing in 32 bits are decided on every host with a device, and commit on none below 2^62 bytes |
| `Placements.DecisionCanOverdraw` | crates/basis-controller/src/db.rs:1404-1434 | a disk of 2^64 - 2^32 GiB is decided and committed on every host with a device that is not overdrawn, however full, and overdraws it |
| `Placements.ReplicasStayBalanced` | crates/basis-controller/src/scheduler.rs:604-626 | over any number of placements of one cluster, all hosts eligible, replica counts differ by at most the most one request brings, so by one for single disks |
| `Placements.CommitCounts` | crates/basis-controller/src/db.rs:1512-1538 | a commit adds to each host's replica count exactly the replicated rows it enters there |
| `Placements.ScoreOrder` | crates/basis-controller/src/scheduler.rs:496-503 | one host scores above another exactly when it has fewer replicas of the cluster, else better GPU topology, else higher preference (added up in 32 bits), else fewer VMs of the cluster, else lower rank, else less left over |
| `NvLink.Find` | crates/basis-agent/src/gpu.rs:344-351 | path halving ends on every forest, returns the root and leaves every element's root as it was |
| `NvLink.JoinKeepsForest` | crates/basis-agent/src/gpu.rs:353-359 | an unranked union of two roots is a forest again |
| `NvLink.JoinLabelsComponents` | crates/basis-agent/src/gpu.rs:353-359 | if equal roots meant connected before the edge, they do after it |
| `NvLink.UniteEdges` | crates/basis-agent/src/gpu.rs:341-359 | after all edges two GPUs have one root exactly when a path joins them |
| `NvLink.AssignGroups` | crates/basis-agent/src/gpu.rs:337-390 | a GPU is grouped exactly when it has an edge; two share an id exactly when a path joins them; the ids are 1 to k |
| `Naming.ParseOfPrintedName` | crates/basis-agent/src/lvm.rs:1112-1120 | parsing a printed volume name returns its VM and index exactly when the VM id is not empty |
| `Naming.ParsePrint` | crates/basis-agent/src/lvm.rs:1116-1118 | a printed number parses back |
| `Naming.LvNameInjective` | crates/basis-agent/src/lvm.rs:726-728 | different disks have different volume names |
| `Naming.AssignmentIdInjective` | crates/basis-controller/src/db.rs:1513 | different disks have different assignment ids |
| `Naming.ReprintIff` | crates/basis-agent/src/lvm.rs:1112-1120 | a name that parses is the printed name of what it parses to exactly when its index has no plus sign and no leading zero |
| `Naming.LeadingZeroParsesToo` | crates/basis-agent/src/lvm.rs:1112-1120 | for every disk a name that parses to it and is not its printed name |
| `LedgerSafety.VolumesAreUnique` | crates/basis-agent/src/db.rs:101-116 | one row per disk already means one row per volume |
| `LedgerSafety.RunIsSafe` | crates/basis-agent/src/lvm.rs:751-1040 | in every run of operations cut after any effect the ledger is well formed and every Ready row has its volume, except for VMs a pass has found dead |
| `LedgerSafety.LiveReadyRowsHaveVolumes` | crates/basis-agent/src/lvm.rs:751-1040 | with VM ids that never return, every Ready row of a live VM has its volume |
| `LedgerSafety.StoppedPassLeavesRowUnbacked` | crates/basis-agent/src/lvm.rs:994-1001 | a pass stopped between volume and row of a dead VM leaves a Ready row without volume |
| `LedgerSafety.ReconcileRemovals` | crates/basis-agent/src/lvm.rs:947-1037 | a pass removes a volume only for a Deleting row or a dead VM |
| `LedgerSafety.LiveReadyRowSurvives` | crates/basis-agent/src/lvm.rs:947-1037 | no pass, cut anywhere, touches a live VM's Ready row or its volume |
| `LedgerOutcome.ReleaseLeaves` | crates/basis-agent/src/lvm.rs:865-895 | a finished release leaves no row of the VM in the pool and none of those rows' volumes, and every other row and volume, whatever order the rows are listed in |
| `LedgerOutcome.AllocateLeaves` | crates/basis-agent/src/lvm.rs:751-863 | what a finished allocation leaves and answers: a Ready assignment answers with what it has and nothing changes; else its leftover row goes, and it is refused exactly when another assignment has the disk, the device is not the pool's, or another row has the volume; else it has a Ready row with the group of its device, and that volume, and nothing else changes |
| `LedgerOutcome.PassLeaves` | crates/basis-agent/src/lvm.rs:935-1040 | what a finished pass leaves: exactly which rows and which volumes go and which rows become Ready, whatever orders the queries return |
| `LedgerReconcile.FinishedPass` | crates/basis-agent/src/lvm.rs:935-1040 | a finished pass has one outcome, whatever order its listings come in |
| `LedgerReconcile.OnePassSettlesRows` | crates/basis-agent/src/lvm.rs:947-1012 | after one pass no Creating or Deleting row is left |
| `LedgerReconcile.OnePassIsEnough` | crates/basis-agent/src/lvm.rs:935-1040 | one pass reaches the fixpoint exactly when no Creating row has a volume and a dead VM |
| `LedgerReconcile.TwoPassesRepair` | crates/basis-agent/src/lvm.rs:935-1040 | from any state two passes reach a fixpoint in which every data volume belongs to a live VM |
| `LedgerReconcile.CrashesThenTwoPasses` | crates/basis-agent/src/lvm.rs:751-1040 | after any run with crashes, two finished passes repair the pool and keep live VMs' volumes |
| `LedgerBackend.LvmLinearBackend.Allocate` | crates/basis-agent/src/lvm.rs:751-863 | carries out the effects of an allocation in order, as far as the process lives; when it ends, the row, the volume and the answer are those `AllocateLeaves` states |
| `LedgerBackend.LvmLinearBackend.Release` | crates/basis-agent/src/lvm.rs:865-895 | the same for a release; when it ends, what is left is what `ReleaseLeaves` states |
| `LedgerBackend.LvmLinearBackend.Reconcile` | crates/basis-agent/src/lvm.rs:935-1040 | the same for a reconcile pass; when it ends on a well-formed ledger, what is left is what `PassLeaves` states, and the rows reported as lost are exactly the pool's Ready rows whose volume was missing |
| `StorageConfig.Validate` | crates/basis-agent/src/config.rs:226-279 | accepts exactly the configurations with distinct pool names, supported backends, and devices and volume groups that partition across pools |
| `StorageConfig.PartitionIff` | crates/basis-agent/src/config.rs:226-279 | the partition on the configuration's own places: every device has a volume group, and no two places in the pools have the same device or the same group |
| `Ingress.MaskRangeMatches` | crates/basis-common/src/gobgp.rs:698-720 | a route matches the mask range of a block exactly when all its addresses lie in the block |
| `Ingress.PolicyMeansSpec` | crates/basis-common/src/gobgp.rs:285-333 | for every peer and route the compiled policy, read through its set names with default reject, accepts exactly what the specification does |
| `Ingress.ReconcileIngressPolicy` | crates/basis-common/src/gobgp.rs:285-318 | the loop compiles one statement and two sets per cluster with prefixes and nodes, and one for the hypervisors; fails exactly when a block does not parse |
| `Ingress.PrefixDefinedSet` | crates/basis-common/src/gobgp.rs:698-720 | the mask ranges of the blocks, or a failure exactly when one does not parse |
| `Ingress.ComputeIngressPolicy` | crates/basis-controller/src/bgp.rs:241-295 | from hosts, clusters and VMs read in three states: one entry per cluster with what it may announce and the addresses of exactly its VMs |
| `Ingress.PolicyCompiles` | crates/basis-common/src/gobgp.rs:285-318 | what is computed from states of a run always compiles |
| `Ingress.PolicyAcceptsIff` | crates/basis-controller/src/bgp.rs:241-295 | on the rows read: a route is accepted exactly when the peer is a host's address, or the address of a VM row whose cluster was read and that cluster's block, endpoint or service block covers the route |
| `Ingress.NodeRoutesIff` | crates/basis-controller/src/bgp.rs:241-295 | with hosts, clusters and VMs read in three states of a run, one after the other: a VM whose address is no host's gets a route accepted exactly when its own cluster was read and that cluster's row covers the route |
| `Ingress.OwnSpaceIsAccepted` | crates/basis-controller/src/bgp.rs:252-275 | so a VM whose address is no host's may announce a single address exactly when it is in the space of its own cluster |
| `Ingress.RoutesStayHome` | crates/basis-controller/src/bgp.rs:241-295 | so every address of the route is its own cluster's, and no other cluster has it, when the clusters or when the VMs were read |

## Left out

- The RPC services, TLS, tasks, timeouts, reconnects and retry loops: callers appear only as the steps of a run.
- The SQL engine, JSON columns and the text forms of addresses and blocks: rows and addresses are typed values; which of two violated constraints is reported first is fixed in the model, and the 64-bit limits of SQL sums over rows that already overdraw a host are not modelled (the gate refuses there either way).
- A pool whose name has the form of a cluster scope key: scopes are a datatype, so the two kinds cannot collide.
- IPv6: all addresses are IPv4.
- Freshness of random identifiers is an assumption of the runs (`Controller.Legal`), not a theorem.
- Controller.RunKeepsSchema: the tables of storage pools, devices, drain markers, commands and LAN endpoint owners are not modelled; no other table refers to them.
- Per-device capacity across concurrent creates, which the insert does not re-check, and the release of disk assignment rows.
- lvm2, sysfs, nvidia-smi, systemd and firewall commands: volumes are a set with create, remove and list; the edges of the GPU graph are given.
- Concurrent storage operations on one host: the ledger theorems are for one operation at a time.
- The BGP daemon: first accepting statement, default reject and mask ranges are taken as its meaning.
- LedgerBackend.LvmLinearBackend.Reconcile: the report's counts of repaired and removed rows and volumes are not modelled; its lost reservations are, as a set of assignment ids.
- The drain markers and the health of devices appear only as one flag per device.
- LAN endpoint election, the command outbox, metrics, custom resources, image handling and the command line: they would only add easy members.
