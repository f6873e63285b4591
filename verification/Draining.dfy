/**
 Draining in a busy controller.

 While a cluster drains, other clusters are created and deleted, hosts report,
 VMs come and go. As long as no step works on the draining cluster itself, its
 acknowledgements decide its end just as if they came alone.
 */
module Draining {
  import opened Config
  import opened Tables
  import opened Teardown
  import opened Controller

  /** The acknowledgement a step carries: an empty one if it is none. */
  function AckOf(step: Step): AckMsg {
    if step.TombstoneAck? then AckMsg(step.host, step.vnis, step.vms) else AckMsg("", [], [])
  }

  function AcksOf(steps: seq<Step>): (acks: seq<AckMsg>)
    ensures |acks| == |steps| && forall i :: 0 <= i < |steps| ==> acks[i] == AckOf(steps[i])
  {
    if steps == [] then [] else AcksOf(steps[..|steps| - 1]) + [AckOf(steps[|steps| - 1])]
  }

  /** `v` was a VM of cluster `c` in `start`. */
  predicate Drains(start: Tables, c: string, v: string) {
    v in start.vms && start.vms[v].cluster == c
  }

  /**
   The step works on nothing of cluster `c`: it takes no address for it or its
   VMs, activates none of its memberships, inserts no VM of it, deletes it not
   by hand, and moves no VM of it out of the pending state.
   */
  ghost predicate Quiet(start: Tables, s: Tables, step: Step, c: string) {
    match step
    case ClusterInsert(d, _, _) => d != c
    case ClusterDelete(d) => d != c
    case VipAllocate(_, d) => d != c
    case BlockAllocate(_, d, _) => d != c
    case EndpointReserve(d, _, _) => d != c
    case VmIpAllocate(_, _, v, _) => !Drains(start, c, v)
    case MemberActivate(d, _, _, _) => d != c
    case VmInsert(v, vm, _, _) => vm.cluster != c && !Drains(start, c, v)
    case VmReport(v, state) => Drains(start, c, v) ==> state == PendingTeardown
    case VmsFail(h) => forall v :: v in s.vms && s.vms[v].cluster == c ==> s.vms[v].host != h
    case _ => true
  }

  // --- A quiet step leaves the cluster as it is ---

  ghost predicate SameCluster(s: Tables, t: Tables, c: string) {
    (c in t.clusters <==> c in s.clusters) && (c in s.clusters ==> t.clusters[c] == s.clusters[c])
  }

  ghost predicate SameMembers(s: Tables, t: Tables, c: string) {
    && (forall h :: (c, h) in t.members <==> (c, h) in s.members)
    && (forall h :: (c, h) in s.members && !s.members[(c, h)].active ==> t.members[(c, h)] == s.members[(c, h)])
  }

  ghost predicate SameVmsOf(start: Tables, s: Tables, t: Tables, c: string) {
    && (forall v :: v in t.vms && t.vms[v].cluster == c ==> v in s.vms && t.vms[v] == s.vms[v])
    && (forall v :: Drains(start, c, v) ==> (v in t.vms <==> v in s.vms) && (v in s.vms ==> t.vms[v] == s.vms[v]))
  }

  /** The owner had no address, so it has none. */
  ghost predicate NoneNew(s: Tables, t: Tables, o: Owner) {
    OwnsNone(s, o) ==> OwnsNone(t, o)
  }

  lemma LeavesClusters(ratio: Ratio, s: Tables, step: Step)
    requires ratio.Valid() && Typed(step) && !step.ClusterInsert? && !step.ClusterDelete? && !step.TombstoneAck?
    ensures Apply(ratio, s, step).clusters == s.clusters
  {
    if OnlyAddresses(step) {
      AddressStep(ratio, s, step);
    } else if OnlyVms(step) {
      VmStep(ratio, s, step);
    }
  }

  lemma ClusterUntouched(ratio: Ratio, start: Tables, s: Tables, step: Step, c: string)
    requires ratio.Valid() && Typed(step) && Quiet(start, s, step, c) && !step.TombstoneAck?
    ensures SameCluster(s, Apply(ratio, s, step), c)
  {
    if !step.ClusterInsert? && !step.ClusterDelete? { LeavesClusters(ratio, s, step); }
  }

  lemma MembersUntouched(ratio: Ratio, start: Tables, s: Tables, step: Step, c: string)
    requires ratio.Valid() && Typed(step) && Quiet(start, s, step, c) && !step.TombstoneAck?
    ensures SameMembers(s, Apply(ratio, s, step), c)
  {
    if LeavesMembers(step) {
      MembersStay(ratio, s, step);
    } else if step.MemberActivate? {
      OtherActivation(s, step.cluster, step.host, step.net.bridgeStart, step.net.bridgeEnd, c);
    }
  }

  lemma OtherActivation(s: Tables, d: string, h: string, lo: nat, hi: nat, c: string)
    requires c != d
    ensures SameMembers(s, EnsureActive(s, d, h, lo, hi).0, c)
  {
    assert forall g :: (c, g) != (d, h);
  }

  lemma PendingUntouched(ratio: Ratio, start: Tables, s: Tables, step: Step, c: string, v: string)
    requires ratio.Valid() && (step.VmReport? || step.VmsFail?) && Quiet(start, s, step, c)
    requires v in s.vms && s.vms[v].cluster == c && s.vms[v].state == PendingTeardown && Drains(start, c, v)
    ensures v in Apply(ratio, s, step).vms && Apply(ratio, s, step).vms[v] == s.vms[v]
  {
  }

  lemma ReportUntouched(ratio: Ratio, start: Tables, s: Tables, step: Step, c: string)
    requires ratio.Valid() && (step.VmReport? || step.VmsFail?) && Quiet(start, s, step, c)
    requires Echoes(start, s, c) && Retired(start, c)
    ensures SameVmsOf(start, s, Apply(ratio, s, step), c)
  {
    var t := Apply(ratio, s, step);
    assert SameVms(s.vms, t.vms) by { ReportStep(ratio, s, step); }
    forall v | v in s.vms && s.vms[v].cluster == c ensures v in t.vms && t.vms[v] == s.vms[v] {
      assert Drains(start, c, v) && s.vms[v].state == PendingTeardown;
      PendingUntouched(ratio, start, s, step, c, v);
    }
  }

  lemma VmsUntouched(ratio: Ratio, start: Tables, s: Tables, step: Step, c: string)
    requires ratio.Valid() && Typed(step) && Quiet(start, s, step, c) && !step.TombstoneAck?
    requires Echoes(start, s, c) && Retired(start, c)
    ensures SameVmsOf(start, s, Apply(ratio, s, step), c)
  {
    if step.VmReport? || step.VmsFail? {
      ReportUntouched(ratio, start, s, step, c);
    } else if !step.VmInsert? {
      LeavesVms(ratio, s, step);
    }
  }

  function OwnersOf(step: Step): set<Owner> {
    match step
    case VipAllocate(_, d) => {OfCluster(d)}
    case BlockAllocate(_, d, _) => {OfCluster(d)}
    case EndpointReserve(d, _, _) => {OfCluster(d)}
    case VmIpAllocate(_, _, v, _) => {OfVm(v)}
    case _ => {}
  }

  /** An address is new only for the owner the step works for. */
  lemma OwnerUntouched(ratio: Ratio, s: Tables, step: Step, o: Owner)
    requires ratio.Valid() && Typed(step) && !step.TombstoneAck? && o !in OwnersOf(step)
    ensures NoneNew(s, Apply(ratio, s, step), o)
  {
    if OnlyVms(step) { VmStep(ratio, s, step); }
  }

  // --- Draining goes on ---

  lemma QuietStep(ratio: Ratio, start: Tables, s: Tables, step: Step, acks: seq<AckMsg>, n: nat, c: string, own: nat)
    requires ratio.Valid() && Typed(step) && Retired(start, c) && Quiet(start, s, step, c) && !step.TombstoneAck?
    requires n < |acks| && acks[n] == AckOf(step) && DrainedTo(start, s, acks, n, c, own) && UniqueClusters(Apply(ratio, s, step))
    ensures DrainedTo(start, Apply(ratio, s, step), acks, n + 1, c, own)
  {
    var t := Apply(ratio, s, step);
    ClusterUntouched(ratio, start, s, step, c);
    MembersUntouched(ratio, start, s, step, c);
    VmsUntouched(ratio, start, s, step, c);
    OwnerUntouched(ratio, s, step, OfCluster(c));
    forall v | Drains(start, c, v) ensures NoneNew(s, t, OfVm(v)) {
      OwnerUntouched(ratio, s, step, OfVm(v));
    }
    UntouchedStaysDrained(start, s, t, acks, n, c, own);
  }

  lemma UntouchedStaysDrained(start: Tables, s: Tables, t: Tables, acks: seq<AckMsg>, n: nat, c: string, own: nat)
    requires Retired(start, c) && n < |acks| && acks[n].vnis == [] && acks[n].vms == [] && UniqueClusters(t)
    requires DrainedTo(start, s, acks, n, c, own)
    requires SameCluster(s, t, c) && SameMembers(s, t, c) && SameVmsOf(start, s, t, c)
    requires NoneNew(s, t, OfCluster(c)) && forall v :: Drains(start, c, v) ==> NoneNew(s, t, OfVm(v))
    ensures DrainedTo(start, t, acks, n + 1, c, own)
  {
    EmptyAckCounts(start, acks, n, c, own);
    QuietEchoes(start, s, t, c);
    QuietIdentity(start, s, t, c, own);
  }

  lemma QuietEchoes(start: Tables, s: Tables, t: Tables, c: string)
    requires Retired(start, c) && Echoes(start, s, c) && SameMembers(s, t, c) && SameVmsOf(start, s, t, c)
    ensures Echoes(start, t, c)
  {
    forall k | k in t.members && k.0 == c ensures k in start.members && t.members[k] == start.members[k] {
      assert (c, k.1) in t.members && k == (c, k.1);
    }
    forall v | v in start.vms && start.vms[v].cluster == c && v in t.vms ensures t.vms[v] == start.vms[v] {
      assert Drains(start, c, v);
    }
  }

  lemma QuietIdentity(start: Tables, s: Tables, t: Tables, c: string, own: nat)
    requires Identified(s, c, own) && UniqueClusters(t)
    requires SameCluster(s, t, c) && SameMembers(s, t, c) && SameVmsOf(start, s, t, c)
    ensures Identified(t, c, own)
  {
    if k :| k in t.members && k.0 == c {
      assert (c, k.1) in s.members && Referenced(s, c);
    } else if v :| v in t.vms && t.vms[v].cluster == c {
      assert v in s.vms && Referenced(s, c);
    }
  }

  /** An empty acknowledgement lists nothing, names nothing and completes nothing. */
  lemma EmptyAckCounts(start: Tables, acks: seq<AckMsg>, n: nat, c: string, own: nat)
    requires n < |acks| && acks[n].vnis == [] && acks[n].vms == []
    ensures forall h, v :: Listed(acks, n + 1, h, v) <==> Listed(acks, n, h, v)
    ensures forall h :: Named(acks, n + 1, h, own) <==> Named(acks, n, h, own)
    ensures Completed(start, acks, n + 1, c, own) <==> Completed(start, acks, n, c, own)
  {
  }

  /** From state `a` of a run on, no step up to state `b` works on cluster `c`. */
  ghost predicate QuietFrom(tr: seq<Tables>, steps: seq<Step>, a: nat, b: nat, c: string)
    requires a <= b <= |steps| < |tr|
  {
    forall m :: a <= m < b ==> Quiet(tr[a], tr[m], steps[m], c)
  }

  lemma NotDrainedYet(s: Tables, acks: seq<AckMsg>, c: string, own: nat)
    requires UniqueClusters(s) && HasVni(s, c, own)
    ensures DrainedTo(s, s, acks, 0, c, own)
  {
  }

  lemma StepDrains(ratio: Ratio, start: Tables, s: Tables, step: Step, acks: seq<AckMsg>, n: nat, c: string, own: nat)
    requires ratio.Valid() && Typed(step) && Retired(start, c) && Quiet(start, s, step, c)
    requires n < |acks| && acks[n] == AckOf(step) && DrainedTo(start, s, acks, n, c, own) && UniqueClusters(Apply(ratio, s, step))
    ensures DrainedTo(start, Apply(ratio, s, step), acks, n + 1, c, own)
  {
    if step.TombstoneAck? {
      DrainStep(start, s, acks, n, c, own);
    } else {
      QuietStep(ratio, start, s, step, acks, n, c, own);
    }
  }

  /** The steps from `a` on carry these acknowledgements. */
  ghost predicate Carry(steps: seq<Step>, a: nat, acks: seq<AckMsg>) {
    a + |acks| <= |steps| && forall i :: 0 <= i < |acks| ==> acks[i] == AckOf(steps[a + i])
  }

  /** A run that leaves the cluster to its acknowledgements from state `a` on, in which it is retired. */
  ghost predicate LeftAlone(cfg: NetworkConfig, ratio: Ratio, tr: seq<Tables>, steps: seq<Step>, a: nat, acks: seq<AckMsg>,
                            c: string, own: nat)
    requires Carvable(cfg) && ratio.Valid()
  {
    && Run(cfg, ratio, tr, steps) && Schema(tr[0]) && Carry(steps, a, acks)
    && HasVni(tr[a], c, own) && Retired(tr[a], c) && QuietFrom(tr, steps, a, a + |acks|, c)
  }

  lemma DrainBegins(cfg: NetworkConfig, ratio: Ratio, tr: seq<Tables>, steps: seq<Step>, a: nat, acks: seq<AckMsg>,
                    c: string, own: nat)
    requires Carvable(cfg) && ratio.Valid() && LeftAlone(cfg, ratio, tr, steps, a, acks, c, own)
    ensures DrainedTo(tr[a], tr[a], acks, 0, c, own)
  {
    assert UniqueClusters(tr[a]) by { RunKeepsSchema(cfg, ratio, tr, steps, a); }
    NotDrainedYet(tr[a], acks, c, own);
  }

  lemma StepInRun(cfg: NetworkConfig, ratio: Ratio, tr: seq<Tables>, steps: seq<Step>, a: nat, acks: seq<AckMsg>, n: nat,
                  c: string, own: nat)
    requires Carvable(cfg) && ratio.Valid() && LeftAlone(cfg, ratio, tr, steps, a, acks, c, own)
    requires n < |acks| && DrainedTo(tr[a], tr[a + n], acks, n, c, own)
    ensures DrainedTo(tr[a], tr[a + n + 1], acks, n + 1, c, own)
  {
    var m := a + n;
    assert Legal(cfg, tr, m, steps[m]) && tr[m + 1] == Apply(ratio, tr[m], steps[m]) && Quiet(tr[a], tr[m], steps[m], c);
    assert UniqueClusters(tr[m + 1]) by { RunKeepsSchema(cfg, ratio, tr, steps, m + 1); }
    StepDrains(ratio, tr[a], tr[m], steps[m], acks, n, c, own);
  }

  ghost predicate Progress(tr: seq<Tables>, a: nat, acks: seq<AckMsg>, n: nat, c: string, own: nat)
    requires n <= |acks| && a + |acks| < |tr|
  {
    DrainedTo(tr[a], tr[a + n], acks, n, c, own)
  }

  lemma {:induction false} ProgressGoesOn(tr: seq<Tables>, a: nat, acks: seq<AckMsg>, n: nat, c: string, own: nat)
    requires n <= |acks| && a + |acks| < |tr| && Progress(tr, a, acks, 0, c, own)
    requires forall m :: 0 <= m < |acks| && Progress(tr, a, acks, m, c, own) ==> Progress(tr, a, acks, m + 1, c, own)
    ensures Progress(tr, a, acks, n, c, own)
    decreases n
  {
    if n > 0 { ProgressGoesOn(tr, a, acks, n - 1, c, own); }
  }

  lemma DrainInRun(cfg: NetworkConfig, ratio: Ratio, tr: seq<Tables>, steps: seq<Step>, a: nat, acks: seq<AckMsg>, n: nat,
                   c: string, own: nat)
    requires Carvable(cfg) && ratio.Valid() && LeftAlone(cfg, ratio, tr, steps, a, acks, c, own) && n <= |acks|
    ensures DrainedTo(tr[a], tr[a + n], acks, n, c, own)
  {
    assert Progress(tr, a, acks, 0, c, own) by { DrainBegins(cfg, ratio, tr, steps, a, acks, c, own); }
    forall m | 0 <= m < |acks| && Progress(tr, a, acks, m, c, own) ensures Progress(tr, a, acks, m + 1, c, own) {
      StepInRun(cfg, ratio, tr, steps, a, acks, m, c, own);
    }
    ProgressGoesOn(tr, a, acks, n, c, own);
    assert Progress(tr, a, acks, n, c, own);
  }

  /**
   In every run, from any state in which a cluster is retired, through any
   steps that do not work on it: its row is gone exactly when one of the
   acknowledgements since named its VNI at a time when all its hosts had named
   it and all its VMs had been listed; then no row and no address of it or its
   VMs is left.
   */
  lemma DrainsInRunIff(cfg: NetworkConfig, ratio: Ratio, tr: seq<Tables>, steps: seq<Step>, a: nat, b: nat, c: string, own: nat)
    requires Carvable(cfg) && ratio.Valid() && Run(cfg, ratio, tr, steps) && Schema(tr[0]) && a <= b <= |steps|
    requires HasVni(tr[a], c, own) && Retired(tr[a], c) && QuietFrom(tr, steps, a, b, c)
    ensures c !in tr[b].clusters <==> Completed(tr[a], AcksOf(steps[a..b]), b - a, c, own)
    ensures c !in tr[b].clusters ==> NothingLeft(tr[a], tr[b], c)
  {
    DrainInRun(cfg, ratio, tr, steps, a, AcksOf(steps[a..b]), b - a, c, own);
    if c !in tr[b].clusters { DrainedLeavesNothing(tr[a], tr[b], AcksOf(steps[a..b]), b - a, c, own); }
  }
}
