/** The agent's storage configuration: devices and volume groups partition across pools. */
module StorageConfig {
  import opened Naming

  datatype Backend = LvmLinear | RawDisk | NvmeNamespace
  datatype DeviceSpec = DeviceSpec(id: string, vg: Option<string>)
  datatype PoolSpec = PoolSpec(name: string, backend: Backend, devices: seq<DeviceSpec>)

  /** All devices, pool by pool. */
  function DevicesOf(pools: seq<PoolSpec>): seq<DeviceSpec>
    decreases |pools|
  {
    if pools == [] then [] else DevicesOf(pools[..|pools| - 1]) + pools[|pools| - 1].devices
  }

  /** No device is listed twice and no volume group backs two devices, within a pool or across pools. */
  ghost predicate Partition(devices: seq<DeviceSpec>) {
    && (forall d <- devices :: d.vg.Some?)
    && (forall i, j :: 0 <= i < j < |devices| ==> devices[i].id != devices[j].id && devices[i].vg != devices[j].vg)
  }

  ghost predicate PoolsOk(pools: seq<PoolSpec>) {
    && (forall i :: 0 <= i < |pools| ==> pools[i].backend == LvmLinear)
    && (forall i, j :: 0 <= i < j < |pools| ==> pools[i].name != pools[j].name)
  }

  lemma {:induction false} DevicesPrefix(pools: seq<PoolSpec>, n: nat)
    requires n <= |pools|
    ensures DevicesOf(pools[..n]) <= DevicesOf(pools)
    decreases |pools|
  {
    if n < |pools| {
      var init := pools[..|pools| - 1];
      DevicesPrefix(init, n);
      assert init[..n] == pools[..n];
    } else {
      assert pools[..n] == pools;
    }
  }

  /** The sets the validation grows are the ids and groups of the devices seen. */
  ghost predicate Seen(devices: seq<DeviceSpec>, ids: set<string>, vgs: set<string>) {
    && ids == (set d <- devices :: d.id)
    && vgs == (set d <- devices | d.vg.Some? :: d.vg.value)
  }

  lemma SeenGrows(devices: seq<DeviceSpec>, d: DeviceSpec, ids: set<string>, vgs: set<string>)
    requires Seen(devices, ids, vgs) && d.vg.Some?
    ensures Seen(devices + [d], ids + {d.id}, vgs + {d.vg.value})
  {
    assert forall e :: e in devices + [d] <==> e in devices || e == d;
  }

  lemma AllSeen(devices: seq<DeviceSpec>, ids: set<string>, vgs: set<string>, x: string)
    requires Seen(devices, ids, vgs)
    ensures x in ids <==> exists i :: 0 <= i < |devices| && devices[i].id == x
    ensures x in vgs <==> exists i :: 0 <= i < |devices| && devices[i].vg == Some(x)
  {
    forall i | 0 <= i < |devices| ensures devices[i] in devices {}
  }

  lemma PartitionGrows(devices: seq<DeviceSpec>, d: DeviceSpec, ids: set<string>, vgs: set<string>)
    requires Partition(devices) && Seen(devices, ids, vgs)
    ensures Partition(devices + [d]) <==> d.id !in ids && d.vg.Some? && d.vg.value !in vgs
  {
    var all := devices + [d];
    AllSeen(devices, ids, vgs, d.id);
    if d.vg.Some? { AllSeen(devices, ids, vgs, d.vg.value); }
    assert all[|devices|] == d && d in all;
    assert forall i :: 0 <= i < |devices| ==> all[i] == devices[i];
  }

  lemma PrefixPartition(devices: seq<DeviceSpec>, all: seq<DeviceSpec>)
    requires devices <= all && Partition(all)
    ensures Partition(devices)
  {
    forall d <- devices ensures d in all {
      var i :| 0 <= i < |devices| && devices[i] == d;
      assert all[i] == d;
    }
  }

  method CheckDevices(devices: seq<DeviceSpec>, ghost before: seq<DeviceSpec>, ids0: set<string>, vgs0: set<string>)
    returns (ok: bool, ids: set<string>, vgs: set<string>)
    requires Partition(before) && Seen(before, ids0, vgs0)
    ensures ok <==> Partition(before + devices)
    ensures ok ==> Seen(before + devices, ids, vgs)
  {
    ids, vgs := ids0, vgs0;
    ghost var done := before;
    for i := 0 to |devices|
      invariant done == before + devices[..i] && Partition(done) && Seen(done, ids, vgs)
    {
      var d := devices[i];
      PartitionGrows(done, d, ids, vgs);
      assert done + [d] == before + devices[..i + 1];
      if d.id in ids || d.vg.None? || d.vg.value in vgs {
        if Partition(before + devices) { PrefixPartition(done + [d], before + devices); }
        return false, ids, vgs;
      }
      SeenGrows(done, d, ids, vgs);
      ids, vgs, done := ids + {d.id}, vgs + {d.vg.value}, done + [d];
    }
    assert devices[..|devices|] == devices;
    ok := true;
  }

  lemma {:induction false} PoolsGrow(pools: seq<PoolSpec>, pool: PoolSpec, names: set<string>)
    requires PoolsOk(pools) && names == set p <- pools :: p.name
    ensures PoolsOk(pools + [pool]) <==> pool.name !in names && pool.backend == LvmLinear
    ensures names + {pool.name} == set p <- pools + [pool] :: p.name
    ensures DevicesOf(pools + [pool]) == DevicesOf(pools) + pool.devices
  {
    var all := pools + [pool];
    assert all[|pools|] == pool && all[..|pools|] == pools;
    assert forall p :: p in all <==> p in pools || p == pool;
    if pool.name in names {
      var j :| 0 <= j < |pools| && pools[j].name == pool.name;
      assert all[j].name == all[|pools|].name;
    } else {
      forall j | 0 <= j < |pools| ensures all[j].name != pool.name { assert pools[j] in pools; }
    }
  }

  function Before(pools: seq<PoolSpec>, i: nat): nat
    requires i <= |pools|
  {
    if i == 0 then 0 else Before(pools, i - 1) + |pools[i - 1].devices|
  }

  lemma {:induction false} BeforePrefix(pools: seq<PoolSpec>, i: nat, n: nat)
    requires i <= n <= |pools|
    ensures Before(pools[..n], i) == Before(pools, i)
    decreases i
  {
    if i > 0 { BeforePrefix(pools, i - 1, n); }
  }

  lemma {:induction false} DeviceCount(pools: seq<PoolSpec>)
    ensures |DevicesOf(pools)| == Before(pools, |pools|)
    decreases |pools|
  {
    if pools != [] {
      var n := |pools| - 1;
      DeviceCount(pools[..n]);
      BeforePrefix(pools, n, n);
    }
  }

  lemma {:induction false} DeviceAt(pools: seq<PoolSpec>, i: nat, a: nat)
    requires i < |pools| && a < |pools[i].devices|
    ensures Before(pools, i) + a < |DevicesOf(pools)| && DevicesOf(pools)[Before(pools, i) + a] == pools[i].devices[a]
    decreases |pools|
  {
    var n := |pools| - 1;
    DeviceCount(pools[..n]);
    BeforePrefix(pools, n, n);
    BeforePrefix(pools, i, n);
    if i < n { DeviceAt(pools[..n], i, a); }
  }

  lemma {:induction false} DeviceFrom(pools: seq<PoolSpec>, k: nat) returns (i: nat, a: nat)
    requires k < |DevicesOf(pools)|
    ensures i < |pools| && a < |pools[i].devices| && k == Before(pools, i) + a && DevicesOf(pools)[k] == pools[i].devices[a]
    decreases |pools|
  {
    var n := |pools| - 1;
    DeviceCount(pools[..n]);
    BeforePrefix(pools, n, n);
    if k < |DevicesOf(pools[..n])| {
      i, a := DeviceFrom(pools[..n], k);
      BeforePrefix(pools, i, n);
    } else {
      i, a := n, k - |DevicesOf(pools[..n])|;
    }
  }

  lemma {:induction false} BeforeGrows(pools: seq<PoolSpec>, i: nat, j: nat)
    requires i < j <= |pools|
    ensures Before(pools, i) + |pools[i].devices| <= Before(pools, j)
    decreases j
  {
    if i < j - 1 { BeforeGrows(pools, i, j - 1); }
  }

  /** Two places in the pools are one place, or have different devices and different volume groups. */
  ghost predicate Apart(pools: seq<PoolSpec>, i: nat, a: nat, j: nat, b: nat)
    requires i < |pools| && a < |pools[i].devices| && j < |pools| && b < |pools[j].devices|
  {
    (i, a) != (j, b) ==> pools[i].devices[a].id != pools[j].devices[b].id && pools[i].devices[a].vg != pools[j].devices[b].vg
  }

  lemma PlacesDiffer(pools: seq<PoolSpec>, i: nat, a: nat, j: nat, b: nat)
    requires i < |pools| && a < |pools[i].devices| && j < |pools| && b < |pools[j].devices| && (i, a) != (j, b)
    ensures Before(pools, i) + a != Before(pools, j) + b
  {
    if i < j { BeforeGrows(pools, i, j); } else if j < i { BeforeGrows(pools, j, i); }
  }

  /** What the validation checks, place by place. */
  lemma PartitionIff(pools: seq<PoolSpec>)
    ensures Partition(DevicesOf(pools)) <==>
      && (forall i: nat, a: nat :: i < |pools| && a < |pools[i].devices| ==> pools[i].devices[a].vg.Some?)
      && (forall i: nat, a: nat, j: nat, b: nat ::
            i < |pools| && a < |pools[i].devices| && j < |pools| && b < |pools[j].devices| ==> Apart(pools, i, a, j, b))
  {
    var all := DevicesOf(pools);
    if Partition(all) {
      forall i: nat, a: nat | i < |pools| && a < |pools[i].devices| ensures pools[i].devices[a].vg.Some? {
        DeviceAt(pools, i, a);
        assert all[Before(pools, i) + a] in all;
      }
      forall i: nat, a: nat, j: nat, b: nat | i < |pools| && a < |pools[i].devices| && j < |pools| && b < |pools[j].devices|
        ensures Apart(pools, i, a, j, b)
      {
        DeviceAt(pools, i, a);
        DeviceAt(pools, j, b);
        if (i, a) != (j, b) { PlacesDiffer(pools, i, a, j, b); }
      }
    }
    if (forall i: nat, a: nat :: i < |pools| && a < |pools[i].devices| ==> pools[i].devices[a].vg.Some?)
       && forall i: nat, a: nat, j: nat, b: nat ::
            i < |pools| && a < |pools[i].devices| && j < |pools| && b < |pools[j].devices| ==> Apart(pools, i, a, j, b) {
      forall d <- all ensures d.vg.Some? {
        var k :| 0 <= k < |all| && all[k] == d;
        var i, a := DeviceFrom(pools, k);
      }
      forall k, m | 0 <= k < m < |all| ensures all[k].id != all[m].id && all[k].vg != all[m].vg {
        var i, a := DeviceFrom(pools, k);
        var j, b := DeviceFrom(pools, m);
        assert Apart(pools, i, a, j, b);
      }
    }
  }

  /** What the validation checks. */
  ghost predicate Sound(pools: seq<PoolSpec>) {
    PoolsOk(pools) && Partition(DevicesOf(pools))
  }

  /** What it has seen of a sound list of pools. */
  ghost predicate SeenPools(pools: seq<PoolSpec>, names: set<string>, ids: set<string>, vgs: set<string>) {
    Sound(pools) && names == (set p <- pools :: p.name) && Seen(DevicesOf(pools), ids, vgs)
  }

  lemma SoundPrefix(done: seq<PoolSpec>, pools: seq<PoolSpec>)
    requires done <= pools && Sound(pools)
    ensures Sound(done)
  {
    assert done == pools[..|done|];
    DevicesPrefix(pools, |done|);
    PrefixPartition(DevicesOf(done), DevicesOf(pools));
  }

  method CheckPool(pool: PoolSpec, ghost done: seq<PoolSpec>, names: set<string>, ids0: set<string>, vgs0: set<string>)
    returns (ok: bool, ids: set<string>, vgs: set<string>)
    requires SeenPools(done, names, ids0, vgs0)
    ensures ok <==> Sound(done + [pool])
    ensures ok ==> SeenPools(done + [pool], names + {pool.name}, ids, vgs)
  {
    PoolsGrow(done, pool, names);
    if pool.name in names || pool.backend != LvmLinear { return false, ids0, vgs0; }
    ok, ids, vgs := CheckDevices(pool.devices, DevicesOf(done), ids0, vgs0);
  }

  /** Accepts exactly the configurations with distinct pool names, supported backends and partitioned devices. */
  method Validate(pools: seq<PoolSpec>) returns (ok: bool)
    ensures ok <==> Sound(pools)
  {
    var names: set<string> := {};
    var ids: set<string>, vgs: set<string> := {}, {};
    ghost var done: seq<PoolSpec> := [];
    for i := 0 to |pools|
      invariant done == pools[..i] && SeenPools(done, names, ids, vgs)
    {
      ok, ids, vgs := CheckPool(pools[i], done, names, ids, vgs);
      done := done + [pools[i]];
      if !ok {
        if Sound(pools) { SoundPrefix(done, pools); }
        return;
      }
      names := names + {pools[i].name};
    }
    assert done == pools;
    ok := true;
  }
}
