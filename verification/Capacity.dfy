/**
 What the VMs of a host use against what the host has.

 Placement decides on a stale snapshot; the insert re-checks the sums inside
 its transaction. Nothing else raises a sum, so CPU, memory and rootfs stay
 within bounds over every run in which no host reports less than before. The
 check of the disk sizes reads their sum as a signed number of bytes; the
 lemmas say exactly when it holds them within bounds too.
 */
module Capacity {
  import opened Naming
  import opened Config
  import opened Tables
  import opened Teardown
  import opened Controller

  // --- Sums over the VM table ---

  /** The sum does not depend on the order in which the rows are taken. */
  lemma {:induction false} UsedRemove(vms: map<string, Vm>, v: string, h: string, r: Resource)
    requires v in vms
    ensures Used(vms, h, r) == AmountOn(vms[v], h, r) + Used(vms - {v}, h, r)
    decreases |vms|
  {
    var w :| w in vms && Used(vms, h, r) == AmountOn(vms[w], h, r) + Used(vms - {w}, h, r);
    if w != v {
      UsedRemove(vms - {w}, v, h, r);
      UsedRemove(vms - {v}, w, h, r);
      assert vms - {w} - {v} == vms - {v} - {w};
    }
  }

  lemma UsedInsert(vms: map<string, Vm>, v: string, vm: Vm, h: string, r: Resource)
    requires v !in vms
    ensures Used(vms[v := vm], h, r) == AmountOn(vm, h, r) + Used(vms, h, r)
  {
    UsedRemove(vms[v := vm], v, h, r);
    assert vms[v := vm] - {v} == vms;
  }

  /** Rows that go away, and states that change, do not raise the sum. */
  lemma {:induction false} UsedShrinks(vms: map<string, Vm>, to: map<string, Vm>, h: string, r: Resource)
    requires forall v :: v in to ==> v in vms && to[v] == vms[v].(state := to[v].state)
    ensures Used(to, h, r) <= Used(vms, h, r)
    decreases |to|
  {
    if to != map[] {
      var v :| v in to;
      UsedRemove(to, v, h, r);
      UsedRemove(vms, v, h, r);
      UsedShrinks(vms - {v}, to - {v}, h, r);
    }
  }

  lemma {:induction false} UnusedHost(vms: map<string, Vm>, h: string, r: Resource)
    requires forall v :: v in vms ==> vms[v].host != h
    ensures Used(vms, h, r) == 0
    decreases |vms|
  {
    if vms != map[] {
      var v :| v in vms;
      UsedRemove(vms, v, h, r);
      UnusedHost(vms - {v}, h, r);
    }
  }

  /** What one more row adds, field by field; no rows add up to nothing. */
  lemma SumsOfFields(vms: map<string, Vm>, v: string, vm: Vm, h: string)
    requires v !in vms
    ensures Used(vms[v := vm], h, Cpu) == Used(vms, h, Cpu) + if vm.host == h then vm.cpu else 0
    ensures Used(vms[v := vm], h, Memory) == Used(vms, h, Memory) + if vm.host == h then vm.memory else 0
    ensures Used(vms[v := vm], h, Rootfs) == Used(vms, h, Rootfs) + if vm.host == h then vm.rootfsGib else 0
    ensures Used(vms[v := vm], h, Data) == Used(vms, h, Data) + if vm.host == h then vm.dataGib else 0
    ensures forall r :: Used(map[], h, r) == 0
  {
    forall r ensures Used(vms[v := vm], h, r) == AmountOn(vm, h, r) + Used(vms, h, r) { UsedInsert(vms, v, vm, h, r); }
  }

  // --- The bound ---

  ghost predicate HostWithin(s: Tables, ratio: Ratio, h: string, r: Resource)
    requires ratio.Valid()
  {
    h in s.hosts ==> Used(s.vms, h, r) * Unit(r) <= Total(s.hosts[h], ratio, r)
  }

  /** A number of CPUs is within the scaled ones exactly when, times the denominator, it is within their product. */
  lemma ScaleIff(ratio: Ratio, cpu: nat, q: int)
    requires ratio.Valid()
    ensures q <= ratio.Scale(cpu) <==> q * ratio.den <= cpu * ratio.num
  {
    var x, d, f := cpu * ratio.num, ratio.den, ratio.Scale(cpu);
    FloorBounds(x, d);
    if q <= f { ProductGrows(q, f, d); } else { ProductGrows(f + 1, q, d); }
  }

  lemma FloorBounds(x: nat, d: nat)
    requires d > 0
    ensures (x / d) * d <= x < (x / d + 1) * d
  {
    assert x == (x / d) * d + x % d;
  }

  lemma ProductGrows(a: int, b: int, d: nat)
    requires a <= b
    ensures a * d <= b * d
  {
  }

  /** What the gate compares, on the columns of the host: the CPUs times the ratio, MiB, and bytes. */
  lemma GateIff(s: Tables, ratio: Ratio, vm: Vm)
    requires ratio.Valid()
    ensures Admits(s, ratio, vm) <==>
      && vm.host in s.hosts && s.hosts[vm.host].healthy
      && (Used(s.vms, vm.host, Cpu) + vm.cpu) * ratio.den <= s.hosts[vm.host].cpu * ratio.num
      && Used(s.vms, vm.host, Memory) + vm.memory <= s.hosts[vm.host].memory
      && (Used(s.vms, vm.host, Rootfs) + vm.rootfsGib) * GIB <= s.hosts[vm.host].rootfsBytes
      && Used(s.vms, vm.host, Data) * GIB + NeedBytes(vm.dataGib % U64_END) <= s.hosts[vm.host].dataBytes
  {
    if vm.host in s.hosts {
      ScaleIff(ratio, s.hosts[vm.host].cpu, Used(s.vms, vm.host, Cpu) + vm.cpu);
    }
  }

  /** What it is for a host to be within its totals, on its columns. */
  lemma {:induction false} WithinIff(s: Tables, ratio: Ratio, h: string)
    requires ratio.Valid() && h in s.hosts
    ensures HostWithin(s, ratio, h, Cpu) <==> Used(s.vms, h, Cpu) * ratio.den <= s.hosts[h].cpu * ratio.num
    ensures HostWithin(s, ratio, h, Memory) <==> Used(s.vms, h, Memory) <= s.hosts[h].memory
    ensures HostWithin(s, ratio, h, Rootfs) <==> Used(s.vms, h, Rootfs) * GIB <= s.hosts[h].rootfsBytes
    ensures HostWithin(s, ratio, h, Data) <==> Used(s.vms, h, Data) * GIB <= s.hosts[h].dataBytes
  {
    ScaleIff(ratio, s.hosts[h].cpu, Used(s.vms, h, Cpu));
  }

  lemma UnitScales(r: Resource, m: nat, n: nat)
    ensures m * Unit(r) + n * Unit(r) == (m + n) * Unit(r)
    ensures m <= n ==> m * Unit(r) <= n * Unit(r)
  {
  }

  /** The disks of the VM are too large for the gate to count their bytes. */
  predicate Oversized(vm: Vm) { vm.dataGib >= GIB_END }

  lemma NeedIsExact(vm: Vm, r: Resource)
    requires r == Data ==> !Oversized(vm)
    ensures Need(vm, r) == Amount(vm, r) * Unit(r)
  {
  }

  /** The VMs whose requests for the resource the gate counts in full. */
  function Counted(vms: map<string, Vm>, r: Resource): map<string, Vm> {
    map v | v in vms && (r == Data ==> !Oversized(vms[v])) :: vms[v]
  }

  ghost predicate CountedWithin(s: Tables, ratio: Ratio, h: string, r: Resource)
    requires ratio.Valid()
  {
    h in s.hosts ==> Used(Counted(s.vms, r), h, r) * Unit(r) <= Total(s.hosts[h], ratio, r)
  }

  lemma {:induction false} CountedRequestFits(s: Tables, ratio: Ratio, vm: Vm, r: Resource)
    requires ratio.Valid() && vm.host in s.hosts && HasRoom(s, ratio, vm, r) && (r == Data ==> !Oversized(vm))
    ensures (Amount(vm, r) + Used(Counted(s.vms, r), vm.host, r)) * Unit(r) <= Total(s.hosts[vm.host], ratio, r)
  {
    var counted, used := Used(Counted(s.vms, r), vm.host, r), Used(s.vms, vm.host, r);
    UsedShrinks(s.vms, Counted(s.vms, r), vm.host, r);
    NeedIsExact(vm, r);
    UnitScales(r, Amount(vm, r), counted);
    UnitScales(r, counted, used);
  }

  lemma {:induction false} UsedInsertCounted(vms: map<string, Vm>, id: string, vm: Vm, h: string, r: Resource)
    requires id !in vms
    ensures Used(Counted(vms[id := vm], r), h, r) ==
      Used(Counted(vms, r), h, r) + if r == Data && Oversized(vm) then 0 else AmountOn(vm, h, r)
  {
    if r == Data && Oversized(vm) {
      assert Counted(vms[id := vm], r) == Counted(vms, r);
    } else {
      assert Counted(vms[id := vm], r) == Counted(vms, r)[id := vm];
      UsedInsert(Counted(vms, r), id, vm, h, r);
    }
  }

  lemma InsertStaysWithin(s: Tables, ratio: Ratio, id: string, vm: Vm, pcis: seq<string>, rows: seq<DiskRow>,
                          h: string, r: Resource)
    requires ratio.Valid() && CountedWithin(s, ratio, h, r)
    ensures CountedWithin(InsertVm(s, ratio, id, vm, pcis, rows).0, ratio, h, r)
  {
    if InsertVm(s, ratio, id, vm, pcis, rows).1.Ok? {
      UsedInsertCounted(s.vms, id, vm, h, r);
      assert HasRoom(s, ratio, vm, r);
      if r != Data || !Oversized(vm) { CountedRequestFits(s, ratio, vm, r); }
    }
  }

  /** A host row is replaced by one that offers no less. */
  ghost predicate NoShrink(s: Tables, ratio: Ratio, step: Step)
    requires ratio.Valid()
  {
    step.HostPut? && step.host in s.hosts ==>
      forall r :: Total(s.hosts[step.host], ratio, r) <= Total(step.report, ratio, r)
  }

  lemma HostsStay(ratio: Ratio, s: Tables, step: Step)
    requires ratio.Valid() && Typed(step) && !step.HostPut?
    ensures Apply(ratio, s, step).hosts == s.hosts
  {
    if OnlyAddresses(step) {
      AddressStep(ratio, s, step);
    } else if OnlyVms(step) {
      VmStep(ratio, s, step);
    } else if step.TombstoneAck? {
      AckDeletesOnlyPending(s, step.host, step.vnis, step.vms);
    }
  }

  /** Only an insert adds a VM row. */
  lemma OtherStepsShrink(ratio: Ratio, s: Tables, step: Step)
    requires ratio.Valid() && Typed(step) && !step.VmInsert?
    ensures var t := Apply(ratio, s, step);
      forall v :: v in t.vms ==> v in s.vms && t.vms[v] == s.vms[v].(state := t.vms[v].state)
  {
    if OnlyAddresses(step) {
      AddressStep(ratio, s, step);
    } else if OnlyVms(step) {
      ReportStep(ratio, s, step);
    } else if step.TombstoneAck? {
      AckDeletesOnlyPending(s, step.host, step.vnis, step.vms);
    }
  }

  lemma StepStaysWithin(ratio: Ratio, s: Tables, step: Step, h: string, r: Resource)
    requires ratio.Valid() && Typed(step) && VmsRefer(s) && NoShrink(s, ratio, step) && CountedWithin(s, ratio, h, r)
    ensures CountedWithin(Apply(ratio, s, step), ratio, h, r)
  {
    if step.VmInsert? {
      InsertStaysWithin(s, ratio, step.vm, step.entry, step.pcis, step.rows, h, r);
    } else {
      var before, after := Counted(s.vms, r), Counted(Apply(ratio, s, step).vms, r);
      OtherStepsShrink(ratio, s, step);
      if !step.HostPut? { HostsStay(ratio, s, step); }
      UsedShrinks(before, after, h, r);
      UnitScales(r, Used(after, h, r), Used(before, h, r));
      if h !in s.hosts { UnusedHost(before, h, r); }
    }
  }

  /** In every state of every run in which no host shrinks, what the gate counts in full is not overcommitted. */
  lemma {:induction false} CountedStaysWithin(cfg: NetworkConfig, ratio: Ratio, tr: seq<Tables>, steps: seq<Step>, i: nat,
                                              h: string, r: Resource)
    requires Carvable(cfg) && ratio.Valid() && Run(cfg, ratio, tr, steps) && tr[0] == EMPTY && i < |tr|
    requires forall j :: 0 <= j < |steps| ==> NoShrink(tr[j], ratio, steps[j])
    ensures CountedWithin(tr[i], ratio, h, r)
  {
    if i > 0 {
      CountedStaysWithin(cfg, ratio, tr, steps, i - 1, h, r);
      RunKeepsSchema(cfg, ratio, tr, steps, i - 1);
      StepStaysWithin(ratio, tr[i - 1], steps[i - 1], h, r);
    }
  }

  /** In every state of every run in which no host shrinks, no host's CPU, memory or rootfs is overcommitted. */
  lemma {:induction false} RunStaysWithin(cfg: NetworkConfig, ratio: Ratio, tr: seq<Tables>, steps: seq<Step>,
                                          i: nat, h: string, r: Resource)
    requires Carvable(cfg) && ratio.Valid() && Run(cfg, ratio, tr, steps) && tr[0] == EMPTY && i < |tr|
    requires forall j :: 0 <= j < |steps| ==> NoShrink(tr[j], ratio, steps[j])
    requires r != Data
    ensures HostWithin(tr[i], ratio, h, r)
    ensures r == Cpu && h in tr[i].hosts ==> Used(tr[i].vms, h, r) * ratio.den <= tr[i].hosts[h].cpu * ratio.num
    ensures r == Memory && h in tr[i].hosts ==> Used(tr[i].vms, h, r) <= tr[i].hosts[h].memory
    ensures r == Rootfs && h in tr[i].hosts ==> Used(tr[i].vms, h, r) * GIB <= tr[i].hosts[h].rootfsBytes
  {
    CountedStaysWithin(cfg, ratio, tr, steps, i, h, r);
    assert Counted(tr[i].vms, r) == tr[i].vms;
    if h in tr[i].hosts { WithinIff(tr[i], ratio, h); }
  }

  // --- Data disks ---

  lemma {:induction false} HostBytesFit(cfg: NetworkConfig, ratio: Ratio, tr: seq<Tables>, steps: seq<Step>, i: nat,
                                        h: string)
    requires Carvable(cfg) && ratio.Valid() && Run(cfg, ratio, tr, steps) && tr[0] == EMPTY && i < |tr| && h in tr[i].hosts
    ensures tr[i].hosts[h].dataBytes < I64_END
    decreases i
  {
    if i > 0 {
      var s, step := tr[i - 1], steps[i - 1];
      assert Legal(cfg, tr, i - 1, step);
      if !step.HostPut? { HostsStay(ratio, s, step); }
      if h in s.hosts { HostBytesFit(cfg, ratio, tr, steps, i - 1, h); }
    }
  }

  /** An oversized row alone is more than a host can have. */
  lemma OversizedOverdraws(s: Tables, ratio: Ratio, v: string)
    requires ratio.Valid() && v in s.vms && Oversized(s.vms[v]) && s.vms[v].host in s.hosts
    requires s.hosts[s.vms[v].host].dataBytes < I64_END
    ensures !HostWithin(s, ratio, s.vms[v].host, Data)
  {
    UsedRemove(s.vms, v, s.vms[v].host, Data);
  }

  /** Rows of other hosts do not count. */
  lemma {:induction false} UsedOnly(vms: map<string, Vm>, to: map<string, Vm>, h: string, r: Resource)
    requires forall v :: v in to ==> v in vms && to[v] == vms[v]
    requires forall v :: v in vms && vms[v].host == h ==> v in to
    ensures Used(to, h, r) == Used(vms, h, r)
    decreases |vms|
  {
    if vms != map[] {
      var v :| v in vms;
      UsedRemove(vms, v, h, r);
      if v in to { UsedRemove(to, v, h, r); }
      UsedOnly(vms - {v}, to - {v}, h, r);
      assert v !in to ==> to - {v} == to;
    }
  }

  /** What the gate lets through stays within the host's data bytes exactly when the disks are not oversized. */
  lemma AdmittedDataFitsIff(s: Tables, ratio: Ratio, vm: Vm)
    requires ratio.Valid() && vm.host in s.hosts && s.hosts[vm.host].dataBytes < I64_END && HasRoom(s, ratio, vm, Data)
    ensures (Used(s.vms, vm.host, Data) + vm.dataGib) * GIB <= s.hosts[vm.host].dataBytes <==> !Oversized(vm)
  {
  }

  /**
   In every state of every run in which no host shrinks, a host's data disks are
   within its bytes exactly when none of its VM rows is oversized.
   */
  lemma DataWithinIff(cfg: NetworkConfig, ratio: Ratio, tr: seq<Tables>, steps: seq<Step>, i: nat, h: string)
    requires Carvable(cfg) && ratio.Valid() && Run(cfg, ratio, tr, steps) && tr[0] == EMPTY && i < |tr|
    requires (forall j :: 0 <= j < |steps| ==> NoShrink(tr[j], ratio, steps[j])) && h in tr[i].hosts
    ensures HostWithin(tr[i], ratio, h, Data) <==>
      forall v :: v in tr[i].vms && tr[i].vms[v].host == h ==> !Oversized(tr[i].vms[v])
  {
    var s := tr[i];
    HostBytesFit(cfg, ratio, tr, steps, i, h);
    if v :| v in s.vms && s.vms[v].host == h && Oversized(s.vms[v]) {
      OversizedOverdraws(s, ratio, v);
    } else {
      CountedStaysWithin(cfg, ratio, tr, steps, i, h, Data);
      UsedOnly(s.vms, Counted(s.vms, Data), h, Data);
    }
  }

  // --- GPUs and the commit ---

  /** In every state of every run, a GPU of a host is claimed by one VM, and that VM is on the host. */
  lemma OneVmPerGpu(cfg: NetworkConfig, ratio: Ratio, tr: seq<Tables>, steps: seq<Step>, i: nat, g: GpuClaim, k: GpuClaim)
    requires Carvable(cfg) && ratio.Valid() && Run(cfg, ratio, tr, steps) && tr[0] == EMPTY && i < |tr|
    requires g in tr[i].gpus && k in tr[i].gpus && g.host == k.host && g.pci == k.pci
    ensures g.vm == k.vm && g.vm in tr[i].vms && tr[i].vms[g.vm].host == g.host
  {
    RunKeepsSchema(cfg, ratio, tr, steps, i);
  }

  ghost function Claims(vm: string, h: string, pcis: seq<string>): set<GpuClaim> {
    set p | p in pcis :: GpuClaim(vm, h, p)
  }

  ghost predicate Distinct<T>(xs: seq<T>) {
    forall i, j :: 0 <= i < j < |xs| ==> xs[i] != xs[j]
  }

  /** Claiming succeeds exactly when the addresses differ and none is taken, and then claims exactly those. */
  lemma {:induction false} ClaimIff(gpus: set<GpuClaim>, vm: string, h: string, pcis: seq<string>)
    ensures ClaimGpus(gpus, vm, h, pcis).Some? <==> Distinct(pcis) && forall p <- pcis :: !GpuTaken(gpus, vm, h, p)
    ensures ClaimGpus(gpus, vm, h, pcis).Some? ==> ClaimGpus(gpus, vm, h, pcis).value == gpus + Claims(vm, h, pcis)
    decreases |pcis|
  {
    if pcis == [] {
      assert Claims(vm, h, pcis) == {};
    } else {
      var p, rest := pcis[0], pcis[1..];
      var more := gpus + {GpuClaim(vm, h, p)};
      ClaimIff(more, vm, h, rest);
      assert Claims(vm, h, pcis) == {GpuClaim(vm, h, p)} + Claims(vm, h, rest);
      forall q ensures GpuTaken(more, vm, h, q) <==> GpuTaken(gpus, vm, h, q) || q == p {
        if q == p { assert GpuClaim(vm, h, p) in more; }
        if GpuTaken(gpus, vm, h, q) {
          var g :| g in gpus && g.pci == q && (g.host == h || g.vm == vm);
          assert g in more;
        }
      }
      assert Distinct(pcis) <==> Distinct(rest) && p !in rest;
    }
  }

  /** `to` is `disks` with the rows entered under their assignment ids. */
  ghost predicate Extends(disks: map<string, DiskRow>, rows: seq<DiskRow>, to: map<string, DiskRow>) {
    && (forall id :: id in disks ==> id in to && to[id] == disks[id])
    && (forall i :: 0 <= i < |rows| ==> AssignmentId(rows[i].key) in to && to[AssignmentId(rows[i].key)] == rows[i])
    && (forall id :: id in to ==> id in disks || exists i :: 0 <= i < |rows| && AssignmentId(rows[i].key) == id)
  }

  ghost predicate DistinctKeys(rows: seq<DiskRow>) {
    forall i, j :: 0 <= i < j < |rows| ==> rows[i].key != rows[j].key
  }

  lemma TakenAfterEntry(disks: map<string, DiskRow>, row: DiskRow, key: DiskKey)
    requires !DiskTaken(disks, row.key)
    ensures DiskTaken(disks[AssignmentId(row.key) := row], key) <==> DiskTaken(disks, key) || key == row.key
  {
    var id := AssignmentId(row.key);
    if AssignmentId(row.key) == AssignmentId(key) { AssignmentIdInjective(row.key, key); }
    if k :| k in disks && disks[k].key == key { assert disks[id := row][k].key == key; }
  }

  /** A VM's GPUs are entered exactly when they differ and no claim is on one of them for the same host or the same VM. */
  lemma {:induction false} GpusEnterIff(gpus: set<GpuClaim>, vm: string, h: string, pcis: seq<string>)
    ensures ClaimGpus(gpus, vm, h, pcis).Some? <==>
      Distinct(pcis) && forall g <- gpus :: g.pci in pcis ==> g.host != h && g.vm != vm
    ensures ClaimGpus(gpus, vm, h, pcis).Some? ==>
      forall g :: g in ClaimGpus(gpus, vm, h, pcis).value <==> g in gpus || (g.vm == vm && g.host == h && g.pci in pcis)
  {
    ClaimIff(gpus, vm, h, pcis);
  }

  /** And its disks, on a table keyed by assignment ids, exactly when they differ and no row is for one of them. */
  lemma {:induction false} DisksEnterIff(disks: map<string, DiskRow>, rows: seq<DiskRow>)
    requires forall id :: id in disks ==> id == AssignmentId(disks[id].key)
    ensures EnterDisks(disks, rows).Some? <==>
      DistinctKeys(rows) && forall id, row :: id in disks && row in rows ==> disks[id].key != row.key
  {
    EnterIff(disks, rows);
    forall row <- rows | AssignmentId(row.key) in disks ensures disks[AssignmentId(row.key)].key == row.key {
      AssignmentIdInjective(row.key, disks[AssignmentId(row.key)].key);
    }
  }

  /** Entering succeeds exactly when the disks differ and none is assigned, and then adds exactly the rows. */
  lemma {:induction false} EnterIff(disks: map<string, DiskRow>, rows: seq<DiskRow>)
    ensures EnterDisks(disks, rows).Some? <==> DistinctKeys(rows) && forall row <- rows :: !DiskTaken(disks, row.key)
    ensures EnterDisks(disks, rows).Some? ==> Extends(disks, rows, EnterDisks(disks, rows).value)
    decreases |rows|
  {
    if rows != [] {
      var row, rest := rows[0], rows[1..];
      if !DiskTaken(disks, row.key) {
        var more := disks[AssignmentId(row.key) := row];
        EnterIff(more, rest);
        forall other <- rest ensures DiskTaken(more, other.key) <==> DiskTaken(disks, other.key) || other.key == row.key {
          TakenAfterEntry(disks, row, other.key);
        }
        assert DistinctKeys(rows) <==> DistinctKeys(rest) && forall other <- rest :: other.key != row.key;
        if EnterDisks(more, rest).Some? { ExtendsOneMore(disks, rows, EnterDisks(more, rest).value); }
      }
    }
  }

  lemma ExtendsOneMore(disks: map<string, DiskRow>, rows: seq<DiskRow>, to: map<string, DiskRow>)
    requires rows != [] && !DiskTaken(disks, rows[0].key)
    requires Extends(disks[AssignmentId(rows[0].key) := rows[0]], rows[1..], to)
    ensures Extends(disks, rows, to)
  {
    var more := disks[AssignmentId(rows[0].key) := rows[0]];
    assert AssignmentId(rows[0].key) in more;
    forall id | id in disks ensures id in to && to[id] == disks[id] { assert id in more; }
    forall i | 0 <= i < |rows| ensures AssignmentId(rows[i].key) in to && to[AssignmentId(rows[i].key)] == rows[i] {
      if i > 0 { assert rows[i] == rows[1..][i - 1]; }
    }
    forall id | id in to ensures id in disks || exists i :: 0 <= i < |rows| && AssignmentId(rows[i].key) == id {
      if id !in more {
        var i :| 0 <= i < |rows| - 1 && AssignmentId(rows[1..][i].key) == id;
        assert rows[i + 1] == rows[1..][i];
      }
    }
  }

  ghost predicate NameFree(s: Tables, id: string, vm: Vm) {
    id !in s.vms && forall v :: v in s.vms && s.vms[v].cluster == vm.cluster ==> s.vms[v].name != vm.name
  }

  ghost predicate GpusFree(s: Tables, id: string, h: string, pcis: seq<string>) {
    Distinct(pcis) && forall g <- s.gpus :: g.pci in pcis ==> g.host != h && g.vm != id
  }

  ghost predicate DisksFree(s: Tables, rows: seq<DiskRow>) {
    DistinctKeys(rows) && forall row <- rows :: !DiskTaken(s.disks, row.key)
  }

  /** What an insert needs: the gate, a new name, its cluster, and GPUs and disks that nobody has. */
  ghost predicate Insertable(s: Tables, ratio: Ratio, id: string, vm: Vm, pcis: seq<string>, rows: seq<DiskRow>)
    requires ratio.Valid()
  {
    && Admits(s, ratio, vm) && NameFree(s, id, vm) && vm.cluster in s.clusters
    && GpusFree(s, id, vm.host, pcis) && DisksFree(s, rows)
  }

  /** That, and nothing else, decides it; it commits all its rows or changes nothing. */
  lemma CommitIff(s: Tables, ratio: Ratio, id: string, vm: Vm, pcis: seq<string>, rows: seq<DiskRow>)
    requires ratio.Valid()
    ensures var (t, r) := InsertVm(s, ratio, id, vm, pcis, rows);
      && (r.Ok? <==> Insertable(s, ratio, id, vm, pcis, rows))
      && (r.Err? ==> t == s)
      && (r.Ok? ==>
            && t == s.(vms := s.vms[id := vm], gpus := s.gpus + Claims(id, vm.host, pcis), disks := t.disks)
            && Extends(s.disks, rows, t.disks))
  {
    RowsEnterIff(s, id, vm.host, pcis, rows);
    NameFreeIff(s, id, vm);
  }

  lemma {:induction false} RowsEnterIff(s: Tables, id: string, h: string, pcis: seq<string>, rows: seq<DiskRow>)
    ensures var gpus, disks := ClaimGpus(s.gpus, id, h, pcis), EnterDisks(s.disks, rows);
      && (gpus.Some? <==> GpusFree(s, id, h, pcis)) && (gpus.Some? ==> gpus.value == s.gpus + Claims(id, h, pcis))
      && (disks.Some? <==> DisksFree(s, rows)) && (disks.Some? ==> Extends(s.disks, rows, disks.value))
  {
    GpusEnterIff(s.gpus, id, h, pcis);
    ClaimIff(s.gpus, id, h, pcis);
    EnterIff(s.disks, rows);
  }

  lemma NameFreeIff(s: Tables, id: string, vm: Vm)
    ensures VmNameTaken(s, id, vm) <==> !NameFree(s, id, vm)
  {
  }

  /**
   Why an insert is refused: the host is gone or unhealthy; the name is taken;
   the cluster is gone; or the room, a GPU or a disk went to somebody else.
   */
  lemma RefusalIff(s: Tables, ratio: Ratio, id: string, vm: Vm, pcis: seq<string>, rows: seq<DiskRow>)
    requires ratio.Valid()
    ensures var r := InsertVm(s, ratio, id, vm, pcis, rows).1;
      var there := vm.host in s.hosts && s.hosts[vm.host].healthy;
      && (r == Err(HostUnavailable) <==> !there)
      && (r == Err(Conflict) <==> Admits(s, ratio, vm) && !NameFree(s, id, vm))
      && (r == Err(Constraint) <==> Admits(s, ratio, vm) && NameFree(s, id, vm) && vm.cluster !in s.clusters)
      && (r == Err(CapacityRaced) <==>
            && there && (Admits(s, ratio, vm) ==> NameFree(s, id, vm) && vm.cluster in s.clusters)
            && !(Admits(s, ratio, vm) && GpusFree(s, id, vm.host, pcis) && DisksFree(s, rows)))
  {
    RowsEnterIff(s, id, vm.host, pcis, rows);
    NameFreeIff(s, id, vm);
  }

  /** A run that commits no oversized disks. */
  ghost predicate InSize(ratio: Ratio, tr: seq<Tables>, steps: seq<Step>)
    requires ratio.Valid() && |steps| < |tr|
  {
    forall j :: 0 <= j < |steps| && steps[j].VmInsert?
                && Insertable(tr[j], ratio, steps[j].vm, steps[j].entry, steps[j].pcis, steps[j].rows) ==>
      !Oversized(steps[j].entry)
  }

  lemma {:induction false} RowsInSize(cfg: NetworkConfig, ratio: Ratio, tr: seq<Tables>, steps: seq<Step>, i: nat, v: string)
    requires Carvable(cfg) && ratio.Valid() && Run(cfg, ratio, tr, steps) && tr[0] == EMPTY && i < |tr|
    requires InSize(ratio, tr, steps) && v in tr[i].vms
    ensures !Oversized(tr[i].vms[v])
    decreases i
  {
    if i > 0 {
      var s, step := tr[i - 1], steps[i - 1];
      assert Legal(cfg, tr, i - 1, step);
      if step.VmInsert? {
        CommitIff(s, ratio, step.vm, step.entry, step.pcis, step.rows);
      } else {
        OtherStepsShrink(ratio, s, step);
      }
      if v in s.vms { RowsInSize(cfg, ratio, tr, steps, i - 1, v); }
    }
  }

  /** Over a whole run in which no host shrinks: no host's data is ever overcommitted exactly when no oversized VM commits. */
  lemma RunDataWithinIff(cfg: NetworkConfig, ratio: Ratio, tr: seq<Tables>, steps: seq<Step>)
    requires Carvable(cfg) && ratio.Valid() && Run(cfg, ratio, tr, steps) && tr[0] == EMPTY
    requires forall j :: 0 <= j < |steps| ==> NoShrink(tr[j], ratio, steps[j])
    ensures (forall i, h :: 0 <= i < |tr| ==> HostWithin(tr[i], ratio, h, Data)) <==> InSize(ratio, tr, steps)
  {
    if InSize(ratio, tr, steps) {
      forall i, h | 0 <= i < |tr| && h in tr[i].hosts ensures HostWithin(tr[i], ratio, h, Data) {
        DataWithinIff(cfg, ratio, tr, steps, i, h);
        forall v | v in tr[i].vms ensures !Oversized(tr[i].vms[v]) { RowsInSize(cfg, ratio, tr, steps, i, v); }
      }
    } else {
      var j :| 0 <= j < |steps| && steps[j].VmInsert? && Oversized(steps[j].entry)
               && Insertable(tr[j], ratio, steps[j].vm, steps[j].entry, steps[j].pcis, steps[j].rows);
      OversizedCommit(cfg, ratio, tr, steps, j);
    }
  }

  lemma OversizedCommit(cfg: NetworkConfig, ratio: Ratio, tr: seq<Tables>, steps: seq<Step>, j: nat)
    requires Carvable(cfg) && ratio.Valid() && Run(cfg, ratio, tr, steps) && tr[0] == EMPTY
    requires j < |steps| && steps[j].VmInsert? && Oversized(steps[j].entry)
    requires Insertable(tr[j], ratio, steps[j].vm, steps[j].entry, steps[j].pcis, steps[j].rows)
    ensures !HostWithin(tr[j + 1], ratio, steps[j].entry.host, Data)
  {
    var step := steps[j];
    assert Legal(cfg, tr, j, step);
    CommitIff(tr[j], ratio, step.vm, step.entry, step.pcis, step.rows);
    HostBytesFit(cfg, ratio, tr, steps, j + 1, step.entry.host);
    OversizedOverdraws(tr[j + 1], ratio, step.vm);
  }
}
